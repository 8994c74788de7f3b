/** `Dechunk` of scripts/bench_blobs_modes.py behind a zero chunk: a call that meets one stops there, while a
    later call reads on. When that makes a stream's result depend on how it is sliced. */
module DechunkOnward {
  import opened Text
  import opened Chunked
  import opened BenchBlobsModes

  /** All that a run of calls returned, or None once one of them raised. */
  function Total(outs: seq<Option<string>>): Option<string> {
    if outs == [] then Some("")
    else
      match outs[0]
      case None => None
      case Some(out) =>
        match Total(outs[1..])
        case None => None
        case Some(rest) => Some(out + rest)
  }

  predicate NonEmpty(slices: seq<string>) {
    forall i :: 0 <= i < |slices| ==> slices[i] != ""
  }

  /** However the network slices the stream, the calls come to the same. */
  ghost predicate SlicingFree(s: string) {
    forall a, b | NonEmpty(a) && NonEmpty(b) && Concat(a) == s && Concat(b) == s ::
      Total(FeedAll("", 0, a)) == Total(FeedAll("", 0, b))
  }

  /** Read on, zero chunk after zero chunk, these bytes give nothing and raise nothing. */
  predicate Quiet(buf: string, left: nat)
    decreases |buf|
  {
    var r := Decode(buf, left);
    && r.out == "" && !r.stop.BadSize?
    && (r.stop.Terminator? ==> |r.buf| < |buf| && Quiet(r.buf, 0))
  }

  // ----- up to a zero chunk ------------------------------------------------------------------------

  /** The line at the head of a buffer, read alone. */
  lemma HeadAlone(buf: string) returns (line: string)
    requires !ReadHead(buf).Partial?
    ensures buf == line + ReadHead(buf).rest && line != ""
    ensures ReadHead(line) == ReadHead(buf).(rest := "")
  {
    var e := Find(buf, CRLF, 0).value;
    line := buf[..e + 2];
    FindAlone(buf, e);
    assert line[..e] == buf[..e] && line[e + 2..] == "";
    assert buf == line + buf[e + 2..];
  }

  lemma FindAlone(buf: string, e: nat)
    requires Find(buf, CRLF, 0) == Some(e)
    ensures e + 2 <= |buf| && Find(buf[..e + 2], CRLF, 0) == Some(e)
  {
    var front := buf[..e];
    SplitHere(buf, e);
    if Find(front, CRLF, 0).Some? {
      FindExtend(front, buf[e..], CRLF, 0);
    }
    FindLineEnd(front, "");
  }

  lemma SplitHere(buf: string, e: nat)
    requires OccursAt(buf, CRLF, e)
    ensures buf[..e] + buf[e..] == buf && buf[..e + 2] == buf[..e] + CRLF + ""
  {
    assert buf[..e + 2] == buf[..e] + buf[e..e + 2];
  }

  /** What is decoded behind a line that has been read. */
  lemma BehindLine(line: string, x: string)
    requires ReadHead(line).Blank? || ReadHead(line).Sized?
    requires ReadHead(line).rest == ""
    ensures var h := ReadHead(line);
            Decode(line + x, 0) ==
              if h.Blank? then Decode(x, 0)
              else if h.size == 0 then Run("", x, 0, Terminator)
              else Decode(x, h.size)
  {
    HeadExtend(line, x);
    assert "" + x == x;
    assert line + x != "";
    hide ReadHead;
  }

  /** What is decoded behind a chunk's data. */
  lemma BehindData(data: string, x: string)
    requires data != ""
    ensures Decode(data + x, |data|) == Prepend(data, Decode(x, 0))
  {
    TakeAll(data + x, |data|);
    assert (data + x)[..|data|] == data && (data + x)[|data|..] == x;
  }

  /** `r` leaves the bytes behind `head`, and comes out the same of `head` alone. */
  ghost predicate EndsBehind(buf: string, left: nat, head: string, r: Run) {
    && buf == head + r.buf && head != "" && r.left == 0
    && Decode(head, left) == Run(r.out, "", 0, Terminator)
  }

  /** A call that ends at a zero chunk has read everything before what it leaves, and would have returned the
      same had the rest not been there. */
  lemma {:induction false} TerminatorCut(buf: string, left: nat) returns (head: string)
    requires Decode(buf, left).stop.Terminator?
    ensures EndsBehind(buf, left, head, Decode(buf, left))
    decreases |buf|
  {
    if left > 0 {
      var data, rest := TakeCut(buf, left);
      var h := TerminatorCut(rest, 0);
      head := data + h;
      TakeCutBack(data, rest, h);
    } else {
      var line, rest, size := LineCut(buf);
      if size == Some(0) {
        head := line;
      } else {
        var h := TerminatorCut(rest, if size.Some? then size.value else 0);
        head := line + h;
        LineCutBack(line, rest, h);
      }
    }
  }

  lemma TakeCut(buf: string, left: nat) returns (data: string, rest: string)
    requires left > 0 && Decode(buf, left).stop.Terminator?
    ensures buf == data + rest && |data| == left
    ensures Decode(rest, 0).stop.Terminator?
  {
    TakeAll(buf, left);
    data, rest := buf[..left], buf[left..];
  }

  lemma TakeCutBack(data: string, rest: string, h: string)
    requires data != "" && EndsBehind(rest, 0, h, Decode(rest, 0))
    ensures EndsBehind(data + rest, |data|, data + h, Decode(data + rest, |data|))
  {
    BehindData(data, rest);
    BehindData(data, h);
    Assoc(data, h, Decode(rest, 0).buf);
    hide Decode;
  }

  /** The line a call that ends at a zero chunk starts with: the empty one, or a size. */
  lemma LineCut(buf: string) returns (line: string, rest: string, size: Option<nat>)
    requires Decode(buf, 0).stop.Terminator?
    ensures buf == line + rest && line != ""
    ensures ReadHead(line) == if size.None? then Blank("") else Sized(size.value, "")
    ensures size == Some(0) ==> EndsBehind(buf, 0, line, Decode(buf, 0))
    ensures size != Some(0) ==> Decode(rest, if size.Some? then size.value else 0).stop.Terminator?
  {
    StopsAtLine(buf);
    line := HeadAlone(buf);
    rest := ReadHead(buf).rest;
    size := if ReadHead(buf).Sized? then Some(ReadHead(buf).size) else None;
    BehindLine(line, rest);
    BehindLine(line, "");
    assert line + "" == line;
    hide Decode, ReadHead;
  }

  lemma StopsAtLine(buf: string)
    requires Decode(buf, 0).stop.Terminator?
    ensures ReadHead(buf).Blank? || ReadHead(buf).Sized?
  {
  }

  lemma LineCutBack(line: string, rest: string, h: string)
    requires ReadHead(line).Blank? || (ReadHead(line).Sized? && ReadHead(line).size > 0)
    requires ReadHead(line).rest == "" && line != ""
    requires var left := if ReadHead(line).Sized? then ReadHead(line).size else 0;
             EndsBehind(rest, left, h, Decode(rest, left))
    ensures EndsBehind(line + rest, 0, line + h, Decode(line + rest, 0))
  {
    var left := if ReadHead(line).Sized? then ReadHead(line).size else 0;
    BehindLine(line, rest);
    BehindLine(line, h);
    Assoc(line, h, Decode(rest, left).buf);
    hide Decode, ReadHead;
  }

  // ----- quiet bytes, and others -------------------------------------------------------------------

  function Joined(out: string, later: Option<string>): Option<string> {
    if later.Some? then Some(out + later.value) else None
  }

  /** A run of calls: the first, then those behind it on what it left. */
  lemma FeedFirst(buf: string, left: nat, slices: seq<string>)
    requires slices != []
    ensures var r := Decode(buf + slices[0], left);
            Total(FeedAll(buf, left, slices)) ==
              if r.stop.BadSize? then None else Joined(r.out, Total(FeedAll(r.buf, r.left, slices[1..])))
  {
    var r := Decode(buf + slices[0], left);
    FeedAllFirst(buf, left, slices);
    if !r.stop.BadSize? {
      TotalFirst(r.out, FeedAll(r.buf, r.left, slices[1..]));
    }
    hide Decode, FeedAll;
  }

  lemma FeedAllFirst(buf: string, left: nat, slices: seq<string>)
    requires slices != []
    ensures var r := Decode(buf + slices[0], left);
            FeedAll(buf, left, slices) ==
              if r.stop.BadSize? then [None] else [Some(r.out)] + FeedAll(r.buf, r.left, slices[1..])
  {
    hide Decode;
  }

  lemma TotalFirst(out: string, rest: seq<Option<string>>)
    ensures Total([Some(out)] + rest) == Joined(out, Total(rest))
  {
    assert ([Some(out)] + rest)[1..] == rest;
  }

  /** One call, and what is to come: nothing of the stream is decoded differently for the cut. */
  lemma FirstSlice(buf: string, left: nat, slices: seq<string>)
    requires slices != []
    ensures Decode(buf + Concat(slices), left) == Continue(Decode(buf + slices[0], left), Concat(slices[1..]))
  {
    DecodeSplit(buf + slices[0], left, Concat(slices[1..]));
    Assoc(buf, slices[0], Concat(slices[1..]));
    hide Decode;
  }

  lemma TerminatorShrinks(buf: string, left: nat)
    ensures Decode(buf, left).stop.Terminator? ==> Decode(buf, left).left == 0 && |Decode(buf, left).buf| < |buf|
  {
    hide Decode;
    if Decode(buf, left).stop.Terminator? {
      var head := TerminatorCut(buf, left);
    }
  }

  /** What a stream `whole` comes to, `r` being what its first bytes came to: the bytes left then are quiet when
      the whole is, and what comes out of the whole is what has come out and what still will. */
  lemma QuietOn(whole: string, left: nat, r: Run, rest: string)
    requires Quiet(whole, left) && Decode(whole, left) == Continue(r, rest)
    requires r.stop.Terminator? ==> r.left == 0
    ensures r.out == "" && !r.stop.BadSize? && Quiet(r.buf + rest, r.left)
  {
    if r.stop.Hungry? {
      EmptyFront(r.out, Decode(r.buf + rest, r.left).out);
      TerminatorShrinks(r.buf + rest, r.left);
    }
    hide Decode;
  }

  lemma EmptyFront(a: string, b: string)
    requires a + b == ""
    ensures a == "" && b == ""
  {
    assert |a + b| == |a| + |b|;
  }

  /** Quiet bytes stay quiet however they are sliced, empty slices included. */
  lemma {:induction false} QuietSlices(buf: string, left: nat, slices: seq<string>)
    requires Quiet(buf + Concat(slices), left)
    ensures Total(FeedAll(buf, left, slices)) == Some("")
    decreases |slices|
  {
    hide *;
    if slices == [] {
      NoSlices(buf, left);
    } else {
      var r := Decode(buf + slices[0], left);
      FeedFirst(buf, left, slices);
      FirstSlice(buf, left, slices);
      TerminatorShrinks(buf + slices[0], left);
      QuietOn(buf + Concat(slices), left, r, Concat(slices[1..]));
      QuietSlices(r.buf, r.left, slices[1..]);
      NothingJoined();
    }
  }

  lemma NoSlices(buf: string, left: nat)
    ensures Total(FeedAll(buf, left, [])) == Some("")
  {
  }

  lemma NothingJoined()
    ensures Joined("", Some("")) == Some("")
  {
    assert "" + "" == "";
  }

  /** Bytes that are not quiet can be sliced so that something comes out or a call raises. */
  lemma {:induction false} LoudSlices(buf: string, left: nat) returns (slices: seq<string>)
    requires !Quiet(buf, left)
    ensures NonEmpty(slices) && Concat(slices) == buf
    ensures Total(FeedAll("", left, slices)) != Some("")
    decreases |buf|
  {
    hide NonEmpty, FeedAll, Total;
    var r := Decode(buf, left);
    TerminatorShrinks(buf, left);
    if r.stop.Terminator? && r.out == "" {
      var head := TerminatorCut(buf, left);
      assert !Quiet(r.buf, 0);
      hide *;
      var rest := LoudSlices(r.buf, 0);
      EndsParts(buf, left, head, r);
      slices := [head] + rest;
      OneMore(head, left, rest, "");
      JoinedNothing(Total(FeedAll("", 0, rest)));
    } else {
      slices := [buf];
      hide *;
      OneSlice(buf, left);
    }
  }

  lemma JoinedNothing(later: Option<string>)
    requires later != Some("")
    ensures Joined("", later) != Some("")
  {
    assert later.Some? ==> "" + later.value == later.value;
  }

  lemma EndsParts(buf: string, left: nat, head: string, r: Run)
    requires EndsBehind(buf, left, head, r)
    ensures buf == head + r.buf && head != "" && Decode(head, left) == Run(r.out, "", 0, Terminator)
  {
  }

  lemma OneSlice(buf: string, left: nat)
    ensures buf != "" ==> NonEmpty([buf])
    ensures Concat([buf]) == buf
    ensures var r := Decode(buf, left); Total(FeedAll("", left, [buf])) == if r.stop.BadSize? then None else Some(r.out)
    ensures buf == "" ==> Quiet(buf, left)
  {
    assert "" + buf == buf && [buf][1..] == [];
    FeedFirst("", left, [buf]);
    var r := Decode(buf, left);
    NoSlices(r.buf, r.left);
    assert r.out + "" == r.out;
  }

  /** A slice that ends at a zero chunk, and slices behind it. */
  lemma OneMore(head: string, left: nat, rest: seq<string>, out: string)
    requires head != "" && NonEmpty(rest) && Decode(head, left) == Run(out, "", 0, Terminator)
    ensures NonEmpty([head] + rest) && Concat([head] + rest) == head + Concat(rest)
    ensures Total(FeedAll("", left, [head] + rest)) == Joined(out, Total(FeedAll("", 0, rest)))
  {
    var slices := [head] + rest;
    assert slices[0] == head && slices[1..] == rest && "" + head == head;
    FeedFirst("", left, slices);
    hide Decode, FeedAll, Total;
  }

  // ----- a message, and what stands behind its zero chunk --------------------------------------------

  /** Chunks, and a zero chunk's line. */
  function Opening(cs: seq<Chunk>, zero: string): string {
    if cs == [] then zero + CRLF else EncodeChunk(cs[0]) + Opening(cs[1..], zero)
  }

  /** A message is that and a bare CRLF. */
  lemma {:induction false} MessageOpens(cs: seq<Chunk>, zero: string)
    ensures Message(cs, zero) == Opening(cs, zero) + CRLF && |Opening(cs, zero)| == ZeroEnd(cs, zero)
  {
    if cs != [] {
      MessageOpens(cs[1..], zero);
      Assoc(EncodeChunk(cs[0]), Opening(cs[1..], zero), CRLF);
    }
  }

  lemma OpeningRead(cs: seq<Chunk>, zero: string, rest: string)
    requires AllWellFormed(cs) && IsSizeLine(zero, 0)
    ensures Decode(Opening(cs, zero) + rest, 0) == Run(Payload(cs), rest, 0, Terminator)
    ensures Opening(cs, zero) != "" && Decode(Opening(cs, zero), 0) == Run(Payload(cs), "", 0, Terminator)
  {
    var head := Opening(cs, zero);
    MessageOpens(cs, zero);
    DecodeToZero(cs, zero);
    assert Message(cs, zero)[..|head|] == head;
    DecodeSplit(head, 0, rest);
    assert "" + rest == rest;
    ZeroEndPositive(cs, zero);
    hide Decode;
  }

  lemma {:induction false} ZeroEndPositive(cs: seq<Chunk>, zero: string)
    ensures ZeroEnd(cs, zero) > 0
  {
    if cs != [] {
      ZeroEndPositive(cs[1..], zero);
    }
  }

  /** However bytes that run into a zero chunk are sliced, what is before it comes out, and what is behind it
      does when it is quiet. */
  lemma {:induction false} QuietBehind(buf: string, left: nat, slices: seq<string>, out: string, rest: string)
    requires Decode(buf + Concat(slices), left) == Run(out, rest, 0, Terminator) && Quiet(rest, 0)
    requires !Decode(buf, left).stop.Terminator?
    ensures Total(FeedAll(buf, left, slices)) == Some(out)
    decreases |slices|
  {
    hide *;
    if slices == [] {
      AppendNothing(buf);
    } else {
      var r, later := Decode(buf + slices[0], left), Concat(slices[1..]);
      FeedFirst(buf, left, slices);
      FirstSlice(buf, left, slices);
      TerminatorShrinks(buf + slices[0], left);
      ContinueIs(r, later, out, rest);
      if r.stop.Terminator? {
        QuietSlices(r.buf, 0, slices[1..]);
        JoinedOut(out, "");
      } else {
        var d := Decode(r.buf + later, r.left);
        LeftHungry(buf + slices[0], left);
        QuietBehind(r.buf, r.left, slices[1..], d.out, rest);
        JoinedOut(r.out, d.out);
      }
    }
  }

  lemma AppendNothing(buf: string)
    ensures buf + Concat([]) == buf
  {
  }

  lemma JoinedOut(a: string, b: string)
    ensures Joined(a, Some(b)) == Some(a + b) && a + "" == a
  {
  }

  lemma ContinueIs(r: Run, later: string, out: string, rest: string)
    requires Continue(r, later) == Run(out, rest, 0, Terminator)
    ensures !r.stop.BadSize?
    ensures r.stop.Terminator? ==> r.out == out && r.buf + later == rest
    ensures r.stop.Hungry? ==>
      var d := Decode(r.buf + later, r.left); d == Run(d.out, rest, 0, Terminator) && r.out + d.out == out
  {
    hide Decode;
  }

  /** What a hungry call leaves is not read further on its own. */
  lemma LeftHungry(buf: string, left: nat)
    requires Decode(buf, left).stop.Hungry?
    ensures var r := Decode(buf, left); Decode(r.buf, r.left).stop.Hungry?
  {
    var r := Decode(buf, left);
    DecodeSplit(buf, left, "");
    assert buf + "" == buf && r.buf + "" == r.buf;
    hide Decode;
  }

  /** The exact law: a message's chunks and zero chunk, and any bytes behind them, come out the same however
      they are sliced if and only if those bytes are quiet. */
  lemma SlicingFreeExactly(cs: seq<Chunk>, zero: string, rest: string)
    requires AllWellFormed(cs) && IsSizeLine(zero, 0)
    ensures SlicingFree(Opening(cs, zero) + rest) <==> Quiet(rest, 0)
    ensures Quiet(rest, 0) ==> forall slices | Concat(slices) == Opening(cs, zero) + rest ::
      Total(FeedAll("", 0, slices)) == Some(Payload(cs))
  {
    var s := Opening(cs, zero) + rest;
    hide *;
    OpeningRead(cs, zero, rest);
    if Quiet(rest, 0) {
      forall slices | Concat(slices) == s
        ensures Total(FeedAll("", 0, slices)) == Some(Payload(cs))
      {
        NothingYet(s);
        QuietBehind("", 0, slices, Payload(cs), rest);
      }
      AllAlike(s, Some(Payload(cs)));
    } else {
      var loud := LoudSlices(rest, 0);
      OneMore(Opening(cs, zero), 0, loud, Payload(cs));
      WholeAtOnce(s);
      JoinedSame(Payload(cs), Total(FeedAll("", 0, loud)));
      NotAlike(s, [s], [Opening(cs, zero)] + loud);
    }
  }

  lemma NothingYet(s: string)
    ensures !Decode("", 0).stop.Terminator? && "" + s == s
  {
  }

  lemma AllAlike(s: string, out: Option<string>)
    requires forall slices | Concat(slices) == s :: Total(FeedAll("", 0, slices)) == out
    ensures SlicingFree(s)
  {
    hide FeedAll, Total;
  }

  lemma NotAlike(s: string, a: seq<string>, b: seq<string>)
    requires NonEmpty(a) && NonEmpty(b) && Concat(a) == s && Concat(b) == s
    requires Total(FeedAll("", 0, a)) != Total(FeedAll("", 0, b))
    ensures !SlicingFree(s)
  {
    hide FeedAll, Total, NonEmpty, Concat;
  }

  lemma WholeAtOnce(s: string)
    ensures s != "" ==> NonEmpty([s])
    ensures Concat([s]) == s
    ensures var r := Decode(s, 0); !r.stop.BadSize? ==> Total(FeedAll("", 0, [s])) == Some(r.out)
  {
    OneSlice(s, 0);
    hide Decode, FeedAll, Total;
  }

  lemma JoinedSame(out: string, later: Option<string>)
    requires later != Some("")
    ensures Joined(out, later) != Some(out)
  {
    assert later.Some? ==> |out + later.value| == |out| + |later.value|;
  }

  /** Two messages: every slicing gives the same if and only if the second has no chunks. In one call the
      second is never reached; cut behind the first zero chunk, it comes out whole. */
  lemma TwoMessages(cs1: seq<Chunk>, zero1: string, cs2: seq<Chunk>, zero2: string)
    requires AllWellFormed(cs1) && IsSizeLine(zero1, 0) && AllWellFormed(cs2) && IsSizeLine(zero2, 0)
    ensures var first, second := Message(cs1, zero1), Message(cs2, zero2);
            && (SlicingFree(first + second) <==> cs2 == [])
            && FeedAll("", 0, [first + second]) == [Some(Payload(cs1))]
            && FeedAll("", 0, [Opening(cs1, zero1), CRLF + second]) == [Some(Payload(cs1)), Some(Payload(cs2))]
  {
    var first, second, head := Message(cs1, zero1), Message(cs2, zero2), Opening(cs1, zero1);
    hide *;
    MessageOpens(cs1, zero1);
    Assoc(head, CRLF, second);
    SlicingFreeExactly(cs1, zero1, CRLF + second);
    SecondRead(cs2, zero2);
    OpeningRead(cs1, zero1, CRLF + second);
    OneCall(first + second);
    TwoCalls(head, CRLF + second, Payload(cs1));
  }

  lemma SecondRead(cs: seq<Chunk>, zero: string)
    requires AllWellFormed(cs) && IsSizeLine(zero, 0)
    ensures Decode(CRLF + Message(cs, zero), 0) == Run(Payload(cs), CRLF, 0, Terminator)
    ensures Quiet(CRLF + Message(cs, zero), 0) <==> cs == []
  {
    hide *;
    BlankLine();
    BehindLine(CRLF, Message(cs, zero));
    MessageOpens(cs, zero);
    OpeningRead(cs, zero, CRLF);
    NoPayload(cs);
    CRLFQuiet();
    QuietIs(CRLF + Message(cs, zero), Payload(cs), CRLF);
  }

  lemma BlankLine()
    ensures ReadHead(CRLF) == Blank("")
  {
    assert OccursAt(CRLF, CRLF, 0);
    assert CRLF[2..] == "";
  }

  lemma NoPayload(cs: seq<Chunk>)
    requires AllWellFormed(cs)
    ensures Payload(cs) == "" <==> cs == []
  {
    assert cs != [] ==> WellFormed(cs[0]);
  }

  lemma CRLFQuiet()
    ensures Quiet(CRLF, 0) && |CRLF| == 2
  {
    BlankLine();
    BehindLine(CRLF, "");
    assert CRLF + "" == CRLF;
    assert Decode("", 0) == Run("", "", 0, Hungry);
  }

  lemma QuietIs(buf: string, out: string, rest: string)
    requires Decode(buf, 0) == Run(out, rest, 0, Terminator)
    ensures Quiet(buf, 0) <==> out == "" && Quiet(rest, 0)
  {
    TerminatorShrinks(buf, 0);
    hide Decode;
  }

  lemma OneCall(s: string)
    ensures FeedAll("", 0, [s]) == var r := Decode(s, 0); if r.stop.BadSize? then [None] else [Some(r.out)]
  {
    var r := Decode(s, 0);
    FeedAllFirst("", 0, [s]);
    assert "" + s == s && [s][1..] == [];
    assert FeedAll(r.buf, r.left, []) == [];
    hide Decode;
  }

  lemma TwoCalls(a: string, b: string, out: string)
    requires Decode(a, 0) == Run(out, "", 0, Terminator)
    ensures FeedAll("", 0, [a, b]) ==
              [Some(out)] + var r := Decode(b, 0); if r.stop.BadSize? then [None] else [Some(r.out)]
  {
    FeedAllFirst("", 0, [a, b]);
    assert "" + a == a && [a, b][1..] == [b];
    OneCall(b);
    hide Decode, FeedAll;
  }

  /** A trailer that reads as no size: in one call it is never reached, and in a later call it raises. */
  lemma TrailerRaises(cs: seq<Chunk>, zero: string, trailer: string, more: string)
    requires AllWellFormed(cs) && IsSizeLine(zero, 0)
    requires trailer != "" && Find(trailer, CRLF, 0).None? && SizeOf(trailer).None?
    ensures var head, rest := Opening(cs, zero), trailer + CRLF + more;
            && !SlicingFree(head + rest)
            && FeedAll("", 0, [head + rest]) == [Some(Payload(cs))]
            && FeedAll("", 0, [head, rest]) == [Some(Payload(cs)), None]
  {
    var head, rest := Opening(cs, zero), trailer + CRLF + more;
    hide *;
    TrailerRead(trailer, more);
    NotQuiet(rest);
    SlicingFreeExactly(cs, zero, rest);
    OpeningRead(cs, zero, rest);
    OneCall(head + rest);
    TwoCalls(head, rest, Payload(cs));
  }

  lemma TrailerRead(trailer: string, more: string)
    requires trailer != "" && Find(trailer, CRLF, 0).None? && SizeOf(trailer).None?
    ensures Decode(trailer + CRLF + more, 0).stop.BadSize?
  {
    var s := trailer + CRLF + more;
    FindLineEnd(trailer, more);
    assert s[..|trailer|] == trailer;
    hide SizeOf;
  }

  lemma NotQuiet(buf: string)
    requires Decode(buf, 0).stop.BadSize?
    ensures !Quiet(buf, 0)
  {
  }
}
