/** The pull reader of scripts/chunked_keepalive.py, and a chunked body read through it. */
module ChunkedKeepalive {
  import opened Text
  import opened Chunked
  import opened Network
  import opened TextMeans
  import Sent = HeaderLines
  import Push = BenchBlobsModes

  datatype Error =
    | Closed            // EOFError: the peer closed the connection
    | UnreadableSize    // ValueError out of int(..., 16)
    | NotFollowedByCRLF // fail("a chunk was not followed by CRLF")

  datatype Result<+T> = Ok(value: T) | Err(error: Error)

  class Reader {
    const sock: Socket
    var buf: string

    constructor (sock: Socket)
      ensures this.sock == sock && buf == ""
    {
      this.sock, buf := sock, "";
    }

    predicate Valid()
      reads this, sock
    {
      sock.Valid()
    }

    /** Every byte not consumed yet: the buffered ones, then those still to arrive. */
    function Remaining(): string
      reads this, sock
    {
      buf + sock.Unread()
    }

    /** False where the source raises EOFError. */
    method Fill() returns (ok: bool)
      requires Valid()
      modifies this, sock
      ensures Valid() && Remaining() == old(Remaining())
      ensures ok ==> |sock.incoming| < |old(sock.incoming)|
      ensures !ok ==> sock.Unread() == "" && buf == old(buf)
    {
      var piece := sock.Recv();
      ok := piece != "";
      Assoc(buf, piece, sock.Unread());
      buf := buf + piece;
    }

    /** The next line depends on the remaining bytes alone, not on how they are cut into pieces, and
        takes exactly itself and its CRLF away. */
    method Line() returns (r: Result<string>)
      requires Valid()
      modifies this, sock
      ensures Valid()
      ensures r == LineOf(old(Remaining())).0 && Remaining() == LineOf(old(Remaining())).1
    {
      ghost var s := Remaining();
      var end := Find(buf, CRLF, 0);
      while end.None?
        invariant Valid() && Remaining() == s && end == Find(buf, CRLF, 0)
        decreases |sock.incoming|
      {
        var ok := Fill();
        if !ok {
          assert buf == s;
          return Err(Closed);
        }
        end := Find(buf, CRLF, 0);
      }
      FindExtend(buf, sock.Unread(), CRLF, 0);
      r := Ok(buf[..end.value]);
      AppendSlices(buf, sock.Unread(), end.value, end.value + 2);
      buf := buf[end.value + 2..];
    }

    /** The next `n` bytes, likewise. */
    method Exact(n: nat) returns (r: Result<string>)
      requires Valid()
      modifies this, sock
      ensures Valid()
      ensures r == ExactOf(old(Remaining()), n).0 && Remaining() == ExactOf(old(Remaining()), n).1
    {
      ghost var s := Remaining();
      while |buf| < n
        invariant Valid() && Remaining() == s
        decreases |sock.incoming|
      {
        var ok := Fill();
        if !ok {
          assert buf == s;
          return Err(Closed);
        }
      }
      r := Ok(buf[..n]);
      AppendSlices(buf, sock.Unread(), n, n);
      buf := buf[n..];
    }
  }

  /** A line at the head of `s`, and what follows it. */
  function LineOf(s: string): (Result<string>, string) {
    match Find(s, CRLF, 0)
    case None => (Err(Closed), s)
    case Some(end) => (Ok(s[..end]), s[end + 2..])
  }

  /** `n` bytes at the head of `s`, and what follows them. */
  function ExactOf(s: string, n: nat): (Result<string>, string) {
    if |s| < n then (Err(Closed), s) else (Ok(s[..n]), s[n..])
  }

  // ----- heads -----------------------------------------------------------------

  datatype Head = Head(status: string, headers: map<string, string>)

  /** One header line entered under its name: trimmed, in lower case, the last of a name winning. */
  function Enter(headers: map<string, string>, line: string): map<string, string> {
    headers[Lower(Strip(Before(line, ':'))) := Strip(After(line, ':'))]
  }

  function HeadersOf(s: string, headers: map<string, string>): (Result<map<string, string>>, string)
    decreases |s|
  {
    match LineOf(s)
    case (Err(e), rest) => (Err(e), rest)
    case (Ok(line), rest) => if line == "" then (Ok(headers), rest) else HeadersOf(rest, Enter(headers, line))
  }

  function HeadOf(s: string): (Result<Head>, string) {
    match LineOf(s)
    case (Err(e), rest) => (Err(e), rest)
    case (Ok(status), rest) =>
      match HeadersOf(rest, map[])
      case (Err(e), rest') => (Err(e), rest')
      case (Ok(headers), rest') => (Ok(Head(status, headers)), rest')
  }

  method ReadHead(r: Reader) returns (head: Result<Head>)
    requires r.Valid()
    modifies r, r.sock
    ensures r.Valid()
    ensures head == HeadOf(old(r.Remaining())).0 && r.Remaining() == HeadOf(old(r.Remaining())).1
  {
    var status := r.Line();
    if status.Err? {
      return Err(status.error);
    }
    var headers := map[];
    ghost var s := r.Remaining();
    while true
      invariant r.Valid()
      invariant HeadersOf(s, map[]) == HeadersOf(r.Remaining(), headers)
      decreases |r.Remaining()|
    {
      var line := r.Line();
      if line.Err? {
        return Err(line.error);
      }
      if line.value == "" {
        break;
      }
      headers := Enter(headers, line.value);
    }
    return Ok(Head(status.value, headers));
  }

  // ----- a chunked body --------------------------------------------------------

  /** Lines up to and with an empty one. */
  function TrailersOf(s: string): (Result<()>, string)
    decreases |s|
  {
    match LineOf(s)
    case (Err(e), rest) => (Err(e), rest)
    case (Ok(line), rest) => if line == "" then (Ok(()), rest) else TrailersOf(rest)
  }

  /** The chunk a size line opens: its data and the CRLF behind it. */
  function DataOf(s: string, size: nat): (Result<string>, string) {
    match ExactOf(s, size)
    case (Err(e), rest) => (Err(e), rest)
    case (Ok(data), rest) =>
      match ExactOf(rest, 2)
      case (Err(e), rest') => (Err(e), rest')
      case (Ok(end), rest') => (if end == CRLF then Ok(data) else Err(NotFollowedByCRLF), rest')
  }

  /** What `read_chunked_body` takes off `s` behind `body`, and what it leaves. */
  function BodyOf(s: string, body: string): (Result<string>, string)
    decreases |s|
  {
    match LineOf(s)
    case (Err(e), rest) => (Err(e), rest)
    case (Ok(line), rest) =>
      match SizeOf(line)
      case None => (Err(UnreadableSize), rest)
      case Some(size) =>
        if size == 0 then
          match TrailersOf(rest)
          case (Err(e), rest') => (Err(e), rest')
          case (Ok(_), rest') => (Ok(body), rest')
        else
          match DataOf(rest, size)
          case (Err(e), rest') => (Err(e), rest')
          case (Ok(data), rest') => BodyOf(rest', body + data)
  }

  method ReadChunkedBody(r: Reader) returns (out: Result<string>)
    requires r.Valid()
    modifies r, r.sock
    ensures r.Valid()
    ensures out == BodyOf(old(r.Remaining()), "").0 && r.Remaining() == BodyOf(old(r.Remaining()), "").1
  {
    var body := "";
    ghost var whole := BodyOf(r.Remaining(), "");
    while true
      invariant r.Valid()
      invariant whole == BodyOf(r.Remaining(), body)
      decreases |r.Remaining()|
    {
      var sizeLine := r.Line();
      if sizeLine.Err? {
        return Err(sizeLine.error);
      }
      var size := SizeOf(sizeLine.value);
      if size.None? {
        return Err(UnreadableSize);
      }
      if size.value == 0 {
        ghost var trailers := TrailersOf(r.Remaining());
        while true
          invariant r.Valid()
          invariant trailers == TrailersOf(r.Remaining())
          decreases |r.Remaining()|
        {
          var trailer := r.Line();
          if trailer.Err? {
            return Err(trailer.error);
          }
          if trailer.value == "" {
            break;
          }
        }
        return Ok(body);
      }
      var data := r.Exact(size.value);
      if data.Err? {
        return Err(data.error);
      }
      var end := r.Exact(2);
      if end.Err? {
        return Err(end.error);
      }
      if end.value != CRLF {
        return Err(NotFollowedByCRLF);
      }
      body := body + data.value;
    }
  }

  // ----- reading undoes writing ------------------------------------------------

  predicate IsTextLine(line: string) {
    line != "" && Find(line, CRLF, 0).None?
  }

  predicate AllTextLines(lines: seq<string>) {
    forall i :: 0 <= i < |lines| ==> IsTextLine(lines[i])
  }

  /** Lines as they are sent, with the empty one that ends them. */
  function EncodeLines(lines: seq<string>): string {
    if lines == [] then CRLF else lines[0] + CRLF + EncodeLines(lines[1..])
  }

  lemma LineOfLine(line: string, more: string)
    requires Find(line, CRLF, 0).None?
    ensures LineOf(line + CRLF + more) == (Ok(line), more)
  {
    var s := line + CRLF + more;
    FindLineEnd(line, more);
    assert s[..|line|] == line && s[|line| + 2..] == more;
  }

  lemma LinesHead(lines: seq<string>, more: string)
    requires AllTextLines(lines)
    ensures lines == [] ==> LineOf(EncodeLines(lines) + more) == (Ok(""), more)
    ensures lines != [] ==> LineOf(EncodeLines(lines) + more) == (Ok(lines[0]), EncodeLines(lines[1..]) + more)
  {
    if lines == [] {
      assert CRLF + more == "" + CRLF + more;
      assert Find("", CRLF, 0).None?;
      LineOfLine("", more);
    } else {
      assert IsTextLine(lines[0]);
      assert EncodeLines(lines) + more == lines[0] + CRLF + (EncodeLines(lines[1..]) + more);
      LineOfLine(lines[0], EncodeLines(lines[1..]) + more);
    }
  }

  lemma {:induction false} TrailersRead(lines: seq<string>, more: string)
    requires AllTextLines(lines)
    ensures TrailersOf(EncodeLines(lines) + more) == (Ok(()), more)
    decreases |lines|
  {
    LinesHead(lines, more);
    if lines != [] {
      TrailersRead(lines[1..], more);
    }
  }

  lemma DataRead(data: string, more: string)
    ensures DataOf(data + CRLF + more, |data|) == (Ok(data), more)
  {
    var s, t := data + CRLF + more, CRLF + more;
    assert s[..|data|] == data && s[|data|..] == t;
    assert t[..2] == CRLF && t[2..] == more;
  }

  lemma ChunkRead(c: Chunk, more: string, body: string)
    requires WellFormed(c)
    ensures BodyOf(EncodeChunk(c) + more, body) == BodyOf(more, body + c.data)
  {
    assert LineOf(EncodeChunk(c) + more) == (Ok(c.line), c.data + CRLF + more) by {
      assert EncodeChunk(c) + more == c.line + CRLF + (c.data + CRLF + more);
      LineOfLine(c.line, c.data + CRLF + more);
    }
    DataRead(c.data, more);
  }

  /** A body with trailers, as it is sent. */
  function EncodeBody(cs: seq<Chunk>, zero: string, trailers: seq<string>): string {
    if cs == [] then zero + CRLF + EncodeLines(trailers) else EncodeChunk(cs[0]) + EncodeBody(cs[1..], zero, trailers)
  }

  lemma {:induction false} BodyReadFrom(cs: seq<Chunk>, zero: string, trailers: seq<string>, following: string,
      body: string)
    requires AllWellFormed(cs) && IsSizeLine(zero, 0) && AllTextLines(trailers)
    ensures BodyOf(EncodeBody(cs, zero, trailers) + following, body) == (Ok(body + Payload(cs)), following)
    decreases |cs|
  {
    if cs == [] {
      ZeroRead(zero, trailers, following, body);
      assert body + "" == body;
    } else {
      var c, tail := cs[0], EncodeBody(cs[1..], zero, trailers);
      assert WellFormed(c);
      Assoc(EncodeChunk(c), tail, following);
      ChunkRead(c, tail + following, body);
      BodyReadFrom(cs[1..], zero, trailers, following, body + c.data);
      Assoc(body, c.data, Payload(cs[1..]));
    }
  }

  lemma ZeroRead(zero: string, trailers: seq<string>, following: string, body: string)
    requires IsSizeLine(zero, 0) && AllTextLines(trailers)
    ensures BodyOf(zero + CRLF + EncodeLines(trailers) + following, body) == (Ok(body), following)
  {
    var more := EncodeLines(trailers) + following;
    Assoc(zero + CRLF, EncodeLines(trailers), following);
    LineOfLine(zero, more);
    TrailersRead(trailers, following);
  }

  /** Decoding inverts encoding, and not one byte of what follows the body is lost: whatever the
      chunks, the trailers and the bytes behind them. */
  lemma BodyRead(cs: seq<Chunk>, zero: string, trailers: seq<string>, following: string)
    requires AllWellFormed(cs) && IsSizeLine(zero, 0) && AllTextLines(trailers)
    ensures BodyOf(EncodeBody(cs, zero, trailers) + following, "") == (Ok(Payload(cs)), following)
  {
    BodyReadFrom(cs, zero, trailers, following, "");
    assert "" + Payload(cs) == Payload(cs);
  }

  function EnterAll(headers: map<string, string>, lines: seq<string>): map<string, string>
    decreases |lines|
  {
    if lines == [] then headers else EnterAll(Enter(headers, lines[0]), lines[1..])
  }

  lemma {:induction false} HeadersRead(lines: seq<string>, following: string, headers: map<string, string>)
    requires AllTextLines(lines)
    ensures HeadersOf(EncodeLines(lines) + following, headers) == (Ok(EnterAll(headers, lines)), following)
    decreases |lines|
  {
    LinesHead(lines, following);
    if lines != [] {
      HeadersRead(lines[1..], following, Enter(headers, lines[0]));
    }
  }

  /** A head read back: the headers have exactly the names sent, in lower case, each with the value of the last
      line of that name. */
  ghost predicate Mirrors(headers: map<string, string>, sent: seq<Sent.Header>) {
    && (forall name :: name in headers <==> NameSent(sent, name))
    && (forall i :: 0 <= i < |sent| ==> Mirrored(headers, sent, sent[i].name))
  }

  /** Some header's name is this word, in lower case. */
  ghost predicate NameSent(sent: seq<Sent.Header>, name: string) {
    exists i :: 0 <= i < |sent| && Lower(sent[i].name) == name
  }

  ghost predicate Mirrored(headers: map<string, string>, sent: seq<Sent.Header>, name: string) {
    Lower(name) in headers && Sent.LastValue(sent, name) == Some(headers[Lower(name)])
  }

  lemma EnterRead(headers: map<string, string>, h: Sent.Header)
    requires Sent.Good(h)
    ensures Enter(headers, Sent.Line(h)) == headers[Lower(h.name) := Sent.Value(h)]
  {
    Sent.LineRead(h);
  }

  lemma {:induction false} EnterOneMore(headers: map<string, string>, lines: seq<string>, line: string)
    ensures EnterAll(headers, lines + [line]) == Enter(EnterAll(headers, lines), line)
    decreases |lines|
  {
    hide Enter;
    if lines == [] {
      assert ([] + [line])[1..] == [] && ([] + [line])[0] == line;
      assert [] + [line] == [line];
    } else {
      assert (lines + [line])[0] == lines[0] && (lines + [line])[1..] == lines[1..] + [line];
      EnterOneMore(Enter(headers, lines[0]), lines[1..], line);
    }
  }

  lemma MirrorsMore(headers: map<string, string>, sent: seq<Sent.Header>, h: Sent.Header)
    requires Mirrors(headers, sent)
    ensures Mirrors(headers[Lower(h.name) := Sent.Value(h)], sent + [h])
  {
    hide Lower, SameWord, Mirrored, NameSent;
    var m, more := headers[Lower(h.name) := Sent.Value(h)], sent + [h];
    forall name
      ensures name in m <==> NameSent(more, name)
    {
      NamesMore(sent, h, name);
    }
    forall i | 0 <= i < |more|
      ensures Mirrored(m, more, more[i].name)
    {
      if i < |sent| {
        assert more[i] == sent[i];
      } else {
        assert more[i] == h;
      }
      MirroredMore(headers, sent, h, more[i].name);
    }
  }

  lemma NamesMore(sent: seq<Sent.Header>, h: Sent.Header, name: string)
    ensures NameSent(sent + [h], name) <==> NameSent(sent, name) || Lower(h.name) == name
  {
    hide Lower;
    var more := sent + [h];
    assert forall i :: 0 <= i < |sent| ==> more[i] == sent[i];
    assert more[|sent|] == h;
  }

  lemma MirroredMore(headers: map<string, string>, sent: seq<Sent.Header>, h: Sent.Header, name: string)
    requires name == h.name || Mirrored(headers, sent, name)
    ensures Mirrored(headers[Lower(h.name) := Sent.Value(h)], sent + [h], name)
  {
    hide Lower, SameWord, Sent.LastValue;
    Sent.LastValueMore(sent, h, name);
    LowerMeans(h.name, name);
  }

  lemma {:induction false} AllMirrored(sent: seq<Sent.Header>)
    requires Sent.AllGood(sent)
    ensures Mirrors(EnterAll(map[], Sent.Lines(sent)), sent)
    decreases |sent|
  {
    hide *;
    if sent == [] {
      NoneMirrored();
    } else {
      var front, last := sent[..|sent| - 1], sent[|sent| - 1];
      LastLine(sent, front, last);
      AllMirrored(front);
      EnterOneMore(map[], Sent.Lines(front), Sent.Line(last));
      EnterRead(EnterAll(map[], Sent.Lines(front)), last);
      MirrorsMore(EnterAll(map[], Sent.Lines(front)), front, last);
    }
  }

  lemma NoneMirrored()
    ensures Mirrors(EnterAll(map[], Sent.Lines([])), [])
  {
    hide Lower;
    assert Sent.Lines([]) == [];
  }

  lemma LastLine(sent: seq<Sent.Header>, front: seq<Sent.Header>, last: Sent.Header)
    requires sent != [] && front == sent[..|sent| - 1] && last == sent[|sent| - 1] && Sent.AllGood(sent)
    ensures Sent.AllGood(front) && Sent.Good(last) && sent == front + [last]
    ensures Sent.Lines(sent) == Sent.Lines(front) + [Sent.Line(last)]
  {
    hide Sent.Good, Sent.Line;
  }

  /** A name in lower case is looked up as the headers were sent, whatever their letters. */
  lemma LookedUp(headers: map<string, string>, sent: seq<Sent.Header>, name: string)
    requires Mirrors(headers, sent) && Lower(name) == name
    ensures Sent.LastValue(sent, name) == if name in headers then Some(headers[name]) else None
  {
    hide Lower, SameWord;
    Sent.LastValueSome(sent, name);
    forall i | 0 <= i < |sent|
      ensures SameWord(sent[i].name, name) <==> Lower(sent[i].name) == name
    {
      LowerMeans(sent[i].name, name);
    }
    if name in headers {
      var i :| 0 <= i < |sent| && Lower(sent[i].name) == name;
      assert Mirrored(headers, sent, sent[i].name);
      SameNameSameValue(sent, sent[i].name, name);
    }
  }

  lemma {:induction false} SameNameSameValue(sent: seq<Sent.Header>, a: string, b: string)
    requires SameWord(a, b)
    ensures Sent.LastValue(sent, a) == Sent.LastValue(sent, b)
  {
    if sent != [] {
      var last := sent[|sent| - 1].name;
      LowerMeans(a, b);
      LowerMeans(last, a);
      LowerMeans(last, b);
      hide SameWord, Lower;
      SameNameSameValue(sent[..|sent| - 1], a, b);
    }
  }

  /** Reading undoes sending, for any headers at all, and leaves exactly the bytes behind the head. */
  lemma HeadRead(status: string, sent: seq<Sent.Header>, following: string)
    requires Find(status, CRLF, 0).None? && Sent.AllGood(sent) && AllTextLines(Sent.Lines(sent))
    ensures var (head, rest) := HeadOf(status + CRLF + EncodeLines(Sent.Lines(sent)) + following);
            head.Ok? && head.value.status == status && Mirrors(head.value.headers, sent) && rest == following
  {
    hide Sent.AllGood, Mirrors, EncodeLines, HeadOf, EnterAll;
    LinesRead(status, Sent.Lines(sent), following);
    AllMirrored(sent);
  }

  lemma LinesRead(status: string, lines: seq<string>, following: string)
    requires Find(status, CRLF, 0).None? && AllTextLines(lines)
    ensures HeadOf(status + CRLF + EncodeLines(lines) + following) ==
              (Ok(Head(status, EnterAll(map[], lines))), following)
  {
    assert status + CRLF + EncodeLines(lines) + following == status + CRLF + (EncodeLines(lines) + following);
    LineOfLine(status, EncodeLines(lines) + following);
    HeadersRead(lines, following, map[]);
  }

  // ----- the probe's exchange ----------------------------------------------------

  /** How the probe ends: with the body it decoded, at one of its own failures, or at an exception nothing
      there catches. */
  datatype Verdict =
    | Passed(body: string)
    | NotAnswered(status: string)
    | NotChunked(encoding: string)
    | CarriesLength
    | WrongLength(n: nat)
    | DidNotSurvive
    | SecondFailed(status: string)
    | UnreadableLength
    | Broken(error: Error)

  function Get(headers: map<string, string>, name: string, default: string): string {
    if name in headers then headers[name] else default
  }

  predicate Has200(status: string) {
    Find(status, "200", 0).Some?
  }

  /** The first response's head: None where the probe goes on to the body. */
  function FirstProblem(head: Head): Option<Verdict> {
    if !Has200(head.status) then Some(NotAnswered(head.status))
    else
      var encoding := Get(head.headers, "transfer-encoding", "");
      if Lower(encoding) != "chunked" then Some(NotChunked(encoding))
      else if "content-length" in head.headers then Some(CarriesLength)
      else None
  }

  function SecondLength(head: Head): Option<int> {
    ParseInt(Get(head.headers, "content-length", "0"))
  }

  /** The second response: its head, and as many bytes as that declares. */
  function SecondOf(s: string, body: string): (Verdict, string) {
    match HeadOf(s)
    case (Err(_), rest) => (DidNotSurvive, rest)
    case (Ok(head), rest) =>
      if !Has200(head.status) then (SecondFailed(head.status), rest)
      else
        match SecondLength(head)
        case None => (UnreadableLength, rest)
        case Some(n) =>
          if n <= 0 then (Passed(body), rest)
          else
            match ExactOf(rest, n)
            case (Err(e), rest') => (Broken(e), rest')
            case (Ok(_), rest') => (Passed(body), rest')
  }

  /** What the probe makes of everything that will arrive, and the bytes it leaves. */
  function VerdictOf(s: string, expected: nat): (Verdict, string) {
    match HeadOf(s)
    case (Err(e), rest) => (Broken(e), rest)
    case (Ok(head), rest) =>
      if FirstProblem(head).Some? then (FirstProblem(head).value, rest)
      else
        match BodyOf(rest, "")
        case (Err(e), rest') => (Broken(e), rest')
        case (Ok(body), rest') =>
          if |body| != expected then (WrongLength(|body|), rest') else SecondOf(rest', body)
  }

  method ReadSecond(r: Reader, body: string) returns (v: Verdict)
    requires r.Valid()
    modifies r, r.sock
    ensures r.Valid()
    ensures v == SecondOf(old(r.Remaining()), body).0 && r.Remaining() == SecondOf(old(r.Remaining()), body).1
  {
    hide HeadOf, Has200, SecondLength;
    var head := ReadHead(r);
    if head.Err? {
      return DidNotSurvive;
    }
    if !Has200(head.value.status) {
      return SecondFailed(head.value.status);
    }
    var n := SecondLength(head.value);
    if n.None? {
      return UnreadableLength;
    }
    if n.value > 0 {
      var second := r.Exact(n.value);
      if second.Err? {
        return Broken(second.error);
      }
    }
    return Passed(body);
  }

  /** The probe's two requests over one connection. */
  method Exchange(r: Reader, expected: nat) returns (v: Verdict)
    requires r.Valid()
    modifies r, r.sock
    ensures r.Valid()
    ensures v == VerdictOf(old(r.Remaining()), expected).0
    ensures r.Remaining() == VerdictOf(old(r.Remaining()), expected).1
  {
    hide HeadOf, BodyOf, SecondOf, FirstProblem;
    var head := ReadHead(r);
    if head.Err? {
      return Broken(head.error);
    }
    var problem := FirstProblem(head.value);
    if problem.Some? {
      return problem.value;
    }
    var body := ReadChunkedBody(r);
    if body.Err? {
      return Broken(body.error);
    }
    if |body.value| != expected {
      return WrongLength(|body.value|);
    }
    v := ReadSecond(r, body.value);
  }

  /** A chunked response and one that says how long it is, as they come down the connection. */
  datatype Answers = Answers(
    status1: string, headers1: seq<Sent.Header>, cs: seq<Chunk>, zero: string, trailers: seq<string>,
    status2: string, headers2: seq<Sent.Header>, body2: string)

  ghost predicate Says200(status: string) {
    exists i: nat :: OccursAt(status, "200", i)
  }

  /** The headers give the body's length as a numeral, or there is no body and no length. */
  ghost predicate SaysLength(sent: seq<Sent.Header>, body: string) {
    match Sent.LastValue(sent, "content-length")
    case None => body == ""
    case Some(v) => Names(v, |body|)
  }

  predicate SentHead(status: string, sent: seq<Sent.Header>) {
    Find(status, CRLF, 0).None? && Sent.AllGood(sent) && AllTextLines(Sent.Lines(sent))
  }

  ghost predicate WellSent(t: Answers) {
    && SentHead(t.status1, t.headers1)
    && AllWellFormed(t.cs) && IsSizeLine(t.zero, 0) && AllTextLines(t.trailers)
    && SentHead(t.status2, t.headers2) && SaysLength(t.headers2, t.body2)
  }

  function SecondBytes(t: Answers, following: string): string {
    t.status2 + CRLF + EncodeLines(Sent.Lines(t.headers2)) + (t.body2 + following)
  }

  function SentBytes(t: Answers, following: string): string {
    t.status1 + CRLF + EncodeLines(Sent.Lines(t.headers1)) +
      (EncodeBody(t.cs, t.zero, t.trailers) + SecondBytes(t, following))
  }

  /** What is wrong with the first head, as it was sent. */
  ghost function HeadProblem(status: string, sent: seq<Sent.Header>): Option<Verdict> {
    if !Says200(status) then Some(NotAnswered(status))
    else
      match Sent.LastValue(sent, "transfer-encoding")
      case None => Some(NotChunked(""))
      case Some(v) =>
        if !SameWord(v, "chunked") then Some(NotChunked(v))
        else if Sent.LastValue(sent, "content-length").Some? then Some(CarriesLength)
        else None
  }

  /** The probe's verdict on two answers, in terms of what was sent. */
  ghost function VerdictFor(t: Answers, expected: nat): Verdict {
    if HeadProblem(t.status1, t.headers1).Some? then HeadProblem(t.status1, t.headers1).value
    else if |Payload(t.cs)| != expected then WrongLength(|Payload(t.cs)|)
    else if !Says200(t.status2) then SecondFailed(t.status2)
    else Passed(Payload(t.cs))
  }

  lemma Says200Is(status: string)
    ensures Has200(status) <==> Says200(status)
  {
    FindFirst(status, "200", 0);
  }

  lemma LiteralNames()
    ensures Lower("transfer-encoding") == "transfer-encoding" && Lower("content-length") == "content-length"
    ensures Lower("chunked") == "chunked"
  {
    hide *;
    SmallLiterals();
    SmallAlready("transfer-encoding");
    SmallAlready("content-length");
    SmallAlready("chunked");
  }

  lemma SmallLiterals()
    ensures NoCapitals("transfer-encoding") && NoCapitals("content-length") && NoCapitals("chunked")
  {
  }

  lemma ProblemIs(head: Head, sent: seq<Sent.Header>)
    requires Mirrors(head.headers, sent)
    ensures FirstProblem(head) == HeadProblem(head.status, sent)
  {
    hide Mirrors, Lower, SameWord, Has200, Says200;
    LiteralNames();
    Says200Is(head.status);
    LookedUp(head.headers, sent, "transfer-encoding");
    LookedUp(head.headers, sent, "content-length");
    LowerMeans(Get(head.headers, "transfer-encoding", ""), "chunked");
    EmptyNotChunked();
  }

  lemma EmptyNotChunked()
    ensures !SameWord("", "chunked")
  {
  }

  lemma LengthIs(head: Head, sent: seq<Sent.Header>, body: string)
    requires Mirrors(head.headers, sent) && Sent.AllGood(sent) && SaysLength(sent, body)
    ensures SecondLength(head) == Some(|body|)
  {
    hide Mirrors, Lower, Names, ParseInt;
    LiteralNames();
    LookedUp(head.headers, sent, "content-length");
    match Sent.LastValue(sent, "content-length")
    case None =>
      ZeroNamed();
    case Some(v) =>
      ValueTrimmed(sent, "content-length");
      TrimmedStays(v);
      ParseIntExactly(v, |body|);
  }

  lemma ZeroNamed()
    ensures ParseInt("0") == Some(0)
  {
    assert Decimal(0) == "0";
    DecimalNames(0);
    hide Decimal, Names;
    TrimmedStays("0");
    ParseIntExactly("0", 0);
  }

  lemma {:induction false} ValueTrimmed(sent: seq<Sent.Header>, name: string)
    requires Sent.AllGood(sent)
    ensures var v := Sent.LastValue(sent, name); v.Some? ==> Trimmed(v.value)
  {
    hide SameWord;
    if sent != [] {
      assert Sent.Good(sent[|sent| - 1]);
      ValueTrimmed(sent[..|sent| - 1], name);
    }
  }

  /** What the probe is for. However the network cuts two such answers, its verdict is what was sent deserves: it
      passes if and only if the first says 200, is chunked by its last transfer-encoding and carries no length, with
      a body as long as expected, and the second says 200; both are then read whole, and exactly the bytes behind
      them are left. */
  lemma PassesExactly(t: Answers, following: string, expected: nat)
    requires WellSent(t)
    ensures VerdictOf(SentBytes(t, following), expected).0 == VerdictFor(t, expected)
    ensures VerdictOf(SentBytes(t, following), expected).0.Passed? ==>
              VerdictOf(SentBytes(t, following), expected) == (Passed(Payload(t.cs)), following)
  {
    hide *;
    WellSentParts(t);
    var rest := EncodeBody(t.cs, t.zero, t.trailers) + SecondBytes(t, following);
    HeadRead(t.status1, t.headers1, rest);
    var (head, _) := HeadOf(SentBytes(t, following));
    BytesAre(t, following);
    ProblemIs(head.value, t.headers1);
    BodyRead(t.cs, t.zero, t.trailers, SecondBytes(t, following));
    SecondRead(t, following);
    VerdictSteps(SentBytes(t, following), expected);
    VerdictForIs(t, expected);
  }

  lemma WellSentParts(t: Answers)
    requires WellSent(t)
    ensures Find(t.status1, CRLF, 0).None? && Sent.AllGood(t.headers1) && AllTextLines(Sent.Lines(t.headers1))
    ensures SentHead(t.status2, t.headers2)
    ensures AllWellFormed(t.cs) && IsSizeLine(t.zero, 0) && AllTextLines(t.trailers)
    ensures SaysLength(t.headers2, t.body2)
  {
  }

  lemma BytesAre(t: Answers, following: string)
    ensures SentBytes(t, following) ==
              t.status1 + CRLF + EncodeLines(Sent.Lines(t.headers1)) +
                (EncodeBody(t.cs, t.zero, t.trailers) + SecondBytes(t, following))
  {
  }

  lemma VerdictForIs(t: Answers, expected: nat)
    ensures var problem := HeadProblem(t.status1, t.headers1);
            VerdictFor(t, expected) ==
              if problem.Some? then problem.value
              else if |Payload(t.cs)| != expected then WrongLength(|Payload(t.cs)|)
              else if Says200(t.status2) then Passed(Payload(t.cs)) else SecondFailed(t.status2)
    ensures HeadProblem(t.status1, t.headers1).Some? ==> !HeadProblem(t.status1, t.headers1).value.Passed?
  {
    hide Says200, Payload;
  }

  /** The reading goes on from the head to the body, and from the body to the second answer. */
  lemma VerdictSteps(s: string, expected: nat)
    requires HeadOf(s).0.Ok? && BodyOf(HeadOf(s).1, "").0.Ok?
    ensures var head, (body, rest) := HeadOf(s).0.value, BodyOf(HeadOf(s).1, "");
            VerdictOf(s, expected) ==
              if FirstProblem(head).Some? then (FirstProblem(head).value, HeadOf(s).1)
              else if |body.value| != expected then (WrongLength(|body.value|), rest)
              else SecondOf(rest, body.value)
  {
    hide HeadOf, BodyOf, FirstProblem, SecondOf;
  }

  lemma SecondRead(t: Answers, following: string)
    requires SentHead(t.status2, t.headers2) && SaysLength(t.headers2, t.body2)
    ensures SecondOf(SecondBytes(t, following), Payload(t.cs)) ==
              if Says200(t.status2) then (Passed(Payload(t.cs)), following)
              else (SecondFailed(t.status2), t.body2 + following)
  {
    HeadRead(t.status2, t.headers2, t.body2 + following);
    var (head, _) := HeadOf(SecondBytes(t, following));
    LengthIs(head.value, t.headers2, t.body2);
    Says200Is(t.status2);
    assert (t.body2 + following)[..|t.body2|] == t.body2 && (t.body2 + following)[|t.body2|..] == following;
    assert t.body2 == "" ==> t.body2 + following == following;
    hide HeadOf, Has200, Says200, SaysLength, SecondLength, EncodeLines, Mirrors, Sent.AllGood, AllTextLines, Payload;
  }

  // ----- the pull reader refines the push decoder --------------------------------

  predicate IsSuffix(t: string, s: string) {
    |t| <= |s| && t == s[|s| - |t|..]
  }

  lemma BodyStep(s: string, body: string)
    requires BodyOf(s, body).0.Ok?
    ensures var (line, rest) := LineOf(s);
            && line.Ok? && SizeOf(line.value).Some?
            && var size := SizeOf(line.value).value;
            if size == 0 then TrailersOf(rest).0.Ok? && BodyOf(s, body) == (Ok(body), TrailersOf(rest).1)
            else
              var (data, rest') := DataOf(rest, size);
              data.Ok? && |rest'| < |s| && BodyOf(s, body) == BodyOf(rest', body + data.value)
  {
  }

  /** Any byte stream at all on which the strict reader finds a body is one on which `Dechunk`, given
      it in one call, finds the same body and stops at the same zero chunk: what the reader leaves is
      the end of what is left in `Dechunk`'s buffer. */
  lemma {:induction false} ReaderRefinesDechunk(s: string, body: string)
    requires BodyOf(s, body).0.Ok?
    ensures var d := Push.Decode(s, 0);
            && d.stop.Terminator? && d.left == 0
            && BodyOf(s, body).0.value == body + d.out
            && IsSuffix(BodyOf(s, body).1, d.buf)
    decreases |s|
  {
    BodyStep(s, body);
    HeadAgrees(s);
    var (line, rest) := LineOf(s);
    var size := SizeOf(line.value).value;
    if size == 0 {
      TrailersSuffix(rest);
      assert body + "" == body;
    } else {
      var (data, rest') := DataOf(rest, size);
      var d := Push.Decode(rest', 0);
      assert Push.Decode(s, 0) == Push.Prepend(data.value, d) by { StrictChunk(rest, size); }
      ReaderRefinesDechunk(rest', body + data.value);
      Assoc(body, data.value, d.out);
    }
  }

  lemma HeadAgrees(s: string)
    requires LineOf(s).0.Ok? && SizeOf(LineOf(s).0.value).Some?
    ensures var n, rest := SizeOf(LineOf(s).0.value).value, LineOf(s).1;
            Push.Decode(s, 0) == if n == 0 then Push.Run("", rest, 0, Push.Terminator) else Push.Decode(rest, n)
  {
    var (line, rest) := LineOf(s);
    assert line.value != "";
    assert s != "";
    assert Push.ReadHead(s) == Push.Sized(SizeOf(line.value).value, rest);
  }

  lemma StrictChunk(s: string, size: nat)
    requires size > 0 && DataOf(s, size).0.Ok?
    ensures var (data, rest) := DataOf(s, size);
            Push.Decode(s, size) == Push.Prepend(data.value, Push.Decode(rest, 0))
  {
    var (data, rest) := DataOf(s, size);
    var u := s[size..];
    Push.TakeAll(s, size);
    assert u == CRLF + rest;
    Push.AfterData(u, rest);
  }

  lemma {:induction false} TrailersSuffix(s: string)
    requires TrailersOf(s).0.Ok?
    ensures IsSuffix(TrailersOf(s).1, s)
    decreases |s|
  {
    var (line, rest) := LineOf(s);
    if line.value != "" {
      TrailersSuffix(rest);
    }
  }
}
