/** Two splitters of a response stream: `responses` of scripts/differential_probe.py, which names
    every response of a finished stream, and `parse` of scripts/body_timeout_probe.py, which takes the
    complete ones off a growing one. */
module Responses {
  import opened Text

  // ----- what a head says ------------------------------------------------------------

  /** The status line's second word, and the Content-Length: None for no such line, a value that is no
      number kept as None inside. */
  datatype HeadInfo = HeadInfo(status: Option<string>, length: Option<Option<int>>)

  /** The results on splitting hold whatever a head is read to say, so they take the reading as an
      argument: `InfoOf` is that of `responses`, `ParseInfoOf` that of `parse`. */
  type Reading = string -> HeadInfo

  /** The Content-Length the lines declare to `responses`, the last one winning. */
  function DeclaredLength(lines: seq<string>, length: Option<Option<int>>): Option<Option<int>>
    decreases |lines|
  {
    if lines == [] then length
    else if Lower(Strip(Before(lines[0], ':'))) == "content-length" then
      DeclaredLength(lines[1..], Some(ParseInt(After(lines[0], ':'))))
    else DeclaredLength(lines[1..], length)
  }

  /** The Content-Length the lines declare to `parse`, which raises at the first that is no number. */
  function StrictLength(lines: seq<string>, length: Option<Option<int>>): Option<Option<int>>
    decreases |lines|
  {
    if lines == [] || length == Some(None) then length
    else if Lower(Strip(Before(lines[0], ':'))) == "content-length" then
      StrictLength(lines[1..], Some(ParseInt(After(lines[0], ':'))))
    else StrictLength(lines[1..], length)
  }

  /** Some line declares a length that is no number. */
  predicate Unreadable(lines: seq<string>) {
    lines != [] && ((Lower(Strip(Before(lines[0], ':'))) == "content-length" && ParseInt(After(lines[0], ':')) == None)
                    || Unreadable(lines[1..]))
  }

  /** The two read the same length where every declared one is a number; where one is not, `parse` raises,
      whatever is declared behind it. */
  lemma {:induction false} LengthsAgree(lines: seq<string>, length: Option<Option<int>>)
    requires length != Some(None)
    ensures StrictLength(lines, length) == if Unreadable(lines) then Some(None) else DeclaredLength(lines, length)
    decreases |lines|
  {
    hide Lower, Strip, Before, After, ParseInt;
    if lines != [] {
      if Lower(Strip(Before(lines[0], ':'))) != "content-length" {
        LengthsAgree(lines[1..], length);
      } else if ParseInt(After(lines[0], ':')).Some? {
        LengthsAgree(lines[1..], Some(ParseInt(After(lines[0], ':'))));
      }
    }
  }

  function StatusWord(line: string): Option<string> {
    if ' ' in line then Some(Before(After(line, ' '), ' ')) else None
  }

  function InfoOf(head: string): HeadInfo {
    var lines := Split(head, CRLF);
    HeadInfo(StatusWord(lines[0]), DeclaredLength(lines[1..], None))
  }

  function ParseInfoOf(head: string): HeadInfo {
    var lines := Split(head, CRLF);
    HeadInfo(StatusWord(lines[0]), StrictLength(lines[1..], None))
  }

  // ----- responses -------------------------------------------------------------------

  /** A token a response: `Final` stands for `echoed(status, body)`, whatever that makes of the two. */
  datatype Token = Interim(status: string) | Final(status: string, body: string) | Partial

  /** What stands at the head of a stream: a token, and where the next response starts, if any can. */
  datatype Step = Step(token: Token, next: Option<nat>)

  function StatusOf(info: HeadInfo): string {
    if info.status.Some? then info.status.value else "?"
  }

  /** The declared length as `responses` reads it: -1 for a value that is no number. */
  function LengthOf(info: HeadInfo): Option<int> {
    match info.length
    case None => None
    case Some(None) => Some(-1)
    case Some(Some(n)) => Some(n)
  }

  predicate IsInterim(status: string) {
    status != "" && status[0] == '1'
  }

  /** The response whose body starts at `bodyAt`. */
  function BodyStep(stream: string, info: HeadInfo, bodyAt: nat): (st: Step)
    requires bodyAt <= |stream|
    ensures st.next.Some? ==> bodyAt <= st.next.value <= |stream|
  {
    var status := StatusOf(info);
    if IsInterim(status) then Step(Interim(status), Some(bodyAt))
    else
      match LengthOf(info)
      case None => Step(Final(status, stream[bodyAt..]), None)
      case Some(n) =>
        if n < 0 || bodyAt + n > |stream| then Step(Partial, None)
        else Step(Final(status, stream[bodyAt..bodyAt + n]), Some(bodyAt + n))
  }

  /** The response that starts at index `i`. */
  function StepAt(stream: string, i: nat, read: Reading): (st: Step)
    requires i <= |stream|
    ensures st.next.Some? ==> i < st.next.value <= |stream|
  {
    match Find(stream, BLANK_LINE, i)
    case None => Step(Partial, None)
    case Some(end) => BodyStep(stream, read(stream[i..end]), end + 4)
  }

  /** A token for each response in `s`, in order. */
  function TokensOf(s: string, read: Reading): seq<Token>
    decreases |s|
  {
    if s == "" then []
    else
      var st := StepAt(s, 0, read);
      [st.token] + if st.next.Some? then TokensOf(s[st.next.value..], read) else []
  }

  /** The source's walk of one index along the stream, the tokens collected as it goes. */
  function Walk(stream: string, i: nat, out: seq<Token>, read: Reading): seq<Token>
    requires i <= |stream|
    decreases |stream| - i
  {
    if i == |stream| then out
    else
      var st := StepAt(stream, i, read);
      if st.next.Some? then Walk(stream, st.next.value, out + [st.token], read) else out + [st.token]
  }

  method ReadResponses(stream: string, read: Reading) returns (out: seq<Token>)
    ensures out == TokensOf(stream, read)
  {
    out := [];
    var i := 0;
    WalkIsTokens(stream, 0, [], read);
    while i < |stream|
      invariant i <= |stream|
      invariant Walk(stream, i, out, read) == TokensOf(stream, read)
      decreases |stream| - i
    {
      var st := StepAt(stream, i, read);
      out := out + [st.token];
      if st.next.None? {
        return;
      }
      i := st.next.value;
    }
  }

  /** One index along a stream and shorter and shorter streams are the same walk. */
  lemma {:induction false} WalkIsTokens(stream: string, i: nat, out: seq<Token>, read: Reading)
    requires i <= |stream|
    ensures Walk(stream, i, out, read) == out + TokensOf(stream[i..], read)
    ensures i == 0 ==> stream[i..] == stream && [] + TokensOf(stream, read) == TokensOf(stream, read)
    decreases |stream| - i
  {
    hide *;
    WalkOne(stream, i, out, read);
    if i == |stream| {
      NothingMore(stream, out, read);
    } else {
      var st := StepAt(stream, i, read);
      if st.next.Some? {
        WalkIsTokens(stream, st.next.value, out + [st.token], read);
        WalkStep(stream, i, out, read);
      } else {
        StepShift(stream, i, read);
        LastToken(stream[i..], read);
        ShiftNone(StepAt(stream[i..], 0, read), i);
      }
    }
    FromStart(stream, read);
  }

  lemma WalkOne(stream: string, i: nat, out: seq<Token>, read: Reading)
    requires i <= |stream|
    ensures i == |stream| ==> Walk(stream, i, out, read) == out
    ensures i < |stream| ==>
      var st := StepAt(stream, i, read);
      && (st.next.None? ==> Walk(stream, i, out, read) == out + [st.token])
      && (st.next.Some? ==> i < st.next.value <= |stream|)
      && (st.next.Some? ==> Walk(stream, i, out, read) == Walk(stream, st.next.value, out + [st.token], read))
  {
    hide StepAt;
  }

  lemma NothingMore(stream: string, out: seq<Token>, read: Reading)
    ensures stream[|stream|..] == "" && out + TokensOf("", read) == out
  {
  }

  lemma ShiftNone(st: Step, i: nat)
    ensures Shift(st, i).next.None? <==> st.next.None?
    ensures Shift(st, i).token == st.token
  {
  }

  lemma FromStart(stream: string, read: Reading)
    ensures stream[0..] == stream && [] + TokensOf(stream, read) == TokensOf(stream, read)
  {
    hide TokensOf;
  }

  lemma WalkStep(stream: string, i: nat, out: seq<Token>, read: Reading)
    requires i < |stream| && StepAt(stream, i, read).next.Some?
    ensures var st := StepAt(stream, i, read);
            out + [st.token] + TokensOf(stream[st.next.value..], read) == out + TokensOf(stream[i..], read)
  {
    var st := StepAt(stream, i, read);
    StepShift(stream, i, read);
    FirstToken(stream[i..], st.next.value - i, read);
    SliceOfSlice(stream, i, st.next.value, |stream|);
    AppendOne(out, st.token, TokensOf(stream[st.next.value..], read));
  }

  function Shift(st: Step, i: int): Step
    requires st.next.Some? ==> st.next.value + i >= 0
  {
    if st.next.Some? then Step(st.token, Some(st.next.value + i)) else st
  }

  lemma BodyShift(stream: string, i: nat, info: HeadInfo, bodyAt: nat)
    requires i <= bodyAt <= |stream|
    ensures Shift(BodyStep(stream[i..], info, bodyAt - i), i) == BodyStep(stream, info, bodyAt)
  {
    SliceOfSlice(stream, i, bodyAt, |stream|);
    var n := LengthOf(info);
    if n.Some? && n.value >= 0 && bodyAt + n.value <= |stream| {
      SliceOfSlice(stream, i, bodyAt, bodyAt + n.value);
    }
  }

  lemma StepShift(stream: string, i: nat, read: Reading)
    requires i <= |stream|
    ensures Shift(StepAt(stream[i..], 0, read), i) == StepAt(stream, i, read)
  {
    FindShift(stream, BLANK_LINE, i);
    var end := Find(stream, BLANK_LINE, i);
    if end.Some? {
      HeadSlice(stream, i, end.value);
      BodyShift(stream, i, read(stream[i..end.value]), end.value + 4);
    }
  }

  lemma HeadSlice(s: string, i: nat, j: nat)
    requires i <= j <= |s|
    ensures s[i..][0..j - i] == s[i..j]
  {
  }

  lemma SliceOfSlice(s: string, i: nat, j: nat, k: nat)
    requires i <= j <= k <= |s|
    ensures s[i..][j - i..k - i] == s[j..k]
    ensures s[i..][j - i..] == s[j..]
  {
  }

  lemma LastToken(s: string, read: Reading)
    requires s != ""
    ensures StepAt(s, 0, read).next.None? ==> TokensOf(s, read) == [StepAt(s, 0, read).token]
  {
  }

  lemma FirstToken(s: string, next: nat, read: Reading)
    requires s != "" && StepAt(s, 0, read).next == Some(next)
    ensures TokensOf(s, read) == [StepAt(s, 0, read).token] + TokensOf(s[next..], read)
  {
  }

  lemma AppendOne<T>(out: seq<T>, a: T, later: seq<T>)
    ensures out + ([a] + later) == out + [a] + later
  {
  }

  // ----- a stream of framed responses, cut anywhere ----------------------------------

  datatype Response = Response(head: string, body: string)

  /** The blank line that ends the head is the first one. */
  predicate CleanHead(r: Response) {
    Find(r.head + BLANK_LINE, BLANK_LINE, 0) == Some(|r.head|)
  }

  /** A response that says where it ends: an interim one, which has no body, or one whose
      Content-Length is the length of its body. */
  predicate Framed(r: Response, read: Reading) {
    var info := read(r.head);
    && CleanHead(r)
    && if IsInterim(StatusOf(info)) then r.body == "" else LengthOf(info) == Some(|r.body|)
  }

  predicate AllFramed(rs: seq<Response>, read: Reading) {
    forall i :: 0 <= i < |rs| ==> Framed(rs[i], read)
  }

  function EncodeOne(r: Response): string {
    r.head + BLANK_LINE + r.body
  }

  function EncodeAll(rs: seq<Response>): string {
    if rs == [] then "" else EncodeOne(rs[0]) + EncodeAll(rs[1..])
  }

  function TokenOf(r: Response, read: Reading): Token {
    var status := StatusOf(read(r.head));
    if IsInterim(status) then Interim(status) else Final(status, r.body)
  }

  function TokensFor(rs: seq<Response>, read: Reading): seq<Token> {
    if rs == [] then [] else [TokenOf(rs[0], read)] + TokensFor(rs[1..], read)
  }

  /** The responses wholly among the first `k` bytes. */
  function WholeBefore(rs: seq<Response>, k: nat): seq<Response> {
    if rs == [] || k < |EncodeOne(rs[0])| then [] else [rs[0]] + WholeBefore(rs[1..], k - |EncodeOne(rs[0])|)
  }

  /** A cut that falls inside a response, not between two. */
  predicate InsideResponse(rs: seq<Response>, k: nat) {
    rs != [] && if k < |EncodeOne(rs[0])| then k > 0 else InsideResponse(rs[1..], k - |EncodeOne(rs[0])|)
  }

  /** The head of a cut response, and its body as far as the cut leaves it. */
  lemma HeadCut(r: Response, tail: string, k: nat)
    requires CleanHead(r) && k <= |EncodeOne(r)| + |tail|
    ensures var s, bodyAt := (EncodeOne(r) + tail)[..k], |r.head| + 4;
            if k < bodyAt then Find(s, BLANK_LINE, 0).None?
            else
              && Find(s, BLANK_LINE, 0) == Some(|r.head|) && s[0..|r.head|] == r.head
              && (k >= |EncodeOne(r)| ==> s[bodyAt..bodyAt + |r.body|] == r.body)
  {
    var s := (EncodeOne(r) + tail)[..k];
    assert EncodeOne(r) + tail == r.head + BLANK_LINE + (r.body + tail);
    FindMarkerCut(r.head, BLANK_LINE, r.body + tail, k);
    if k >= |EncodeOne(r)| {
      CutMiddle(r.head + BLANK_LINE, r.body, tail, k);
    }
  }

  lemma CutMiddle(a: string, b: string, c: string, k: nat)
    requires |a| + |b| <= k <= |a| + |b| + |c|
    ensures (a + b + c)[..k][|a|..|a| + |b|] == b
  {
  }

  lemma FirstCut(r: Response, tail: string, k: nat, read: Reading)
    requires Framed(r, read) && k <= |EncodeOne(r)| + |tail|
    ensures k < |EncodeOne(r)| ==> StepAt((EncodeOne(r) + tail)[..k], 0, read) == Step(Partial, None)
    ensures k >= |EncodeOne(r)| ==>
              StepAt((EncodeOne(r) + tail)[..k], 0, read) == Step(TokenOf(r, read), Some(|EncodeOne(r)|))
  {
    HeadCut(r, tail, k);
  }

  lemma DropFirst(a: string, b: string, k: nat)
    requires |a| <= k <= |a| + |b|
    ensures (a + b)[..k][|a|..] == b[..k - |a|]
  {
  }

  /** The tokens of a stream cut at `k`. */
  function TokensBefore(rs: seq<Response>, k: nat, read: Reading): seq<Token> {
    TokensFor(WholeBefore(rs, k), read) + if InsideResponse(rs, k) then [Partial] else []
  }

  /** Every cut of every stream of framed responses: a token each for the whole ones, in order, and one
      PARTIAL behind them exactly when the cut is inside a response. */
  lemma {:induction false} TokensCut(rs: seq<Response>, k: nat, read: Reading)
    requires AllFramed(rs, read) && k <= |EncodeAll(rs)|
    ensures TokensOf(EncodeAll(rs)[..k], read) == TokensBefore(rs, k, read)
    decreases |rs|
  {
    hide *;
    if rs != [] && k >= |EncodeOne(rs[0])| {
      FirstFramed(rs, read);
      TokensCut(rs[1..], k - |EncodeOne(rs[0])|, read);
      WholeThenCut(rs, k, read);
    } else {
      CutInFirst(rs, k, read);
    }
  }

  lemma FirstFramed(rs: seq<Response>, read: Reading)
    requires AllFramed(rs, read) && rs != []
    ensures Framed(rs[0], read) && AllFramed(rs[1..], read)
    ensures |EncodeAll(rs)| == |EncodeOne(rs[0])| + |EncodeAll(rs[1..])|
  {
    hide Framed, EncodeOne;
  }

  lemma CutInFirst(rs: seq<Response>, k: nat, read: Reading)
    requires AllFramed(rs, read) && k <= |EncodeAll(rs)| && (rs == [] || k < |EncodeOne(rs[0])|)
    ensures TokensOf(EncodeAll(rs)[..k], read) == TokensBefore(rs, k, read)
  {
    if rs != [] {
      assert Framed(rs[0], read);
      FirstCut(rs[0], EncodeAll(rs[1..]), k, read);
      if k > 0 {
        LastToken((EncodeOne(rs[0]) + EncodeAll(rs[1..]))[..k], read);
      }
    }
  }

  lemma WholeThenCut(rs: seq<Response>, k: nat, read: Reading)
    requires rs != [] && Framed(rs[0], read) && |EncodeOne(rs[0])| <= k <= |EncodeAll(rs)|
    requires var k' := k - |EncodeOne(rs[0])|;
             TokensOf(EncodeAll(rs[1..])[..k'], read) == TokensBefore(rs[1..], k', read)
    ensures TokensOf(EncodeAll(rs)[..k], read) == TokensBefore(rs, k, read)
  {
    var r, tail, k' := rs[0], EncodeAll(rs[1..]), k - |EncodeOne(rs[0])|;
    var s := (EncodeOne(r) + tail)[..k];
    FirstCut(r, tail, k, read);
    FirstToken(s, |EncodeOne(r)|, read);
    DropFirst(EncodeOne(r), tail, k);
    BeforeStep(rs, k, read);
  }

  lemma BeforeStep(rs: seq<Response>, k: nat, read: Reading)
    requires rs != [] && |EncodeOne(rs[0])| <= k
    ensures TokensBefore(rs, k, read) == [TokenOf(rs[0], read)] + TokensBefore(rs[1..], k - |EncodeOne(rs[0])|, read)
  {
    var k' := k - |EncodeOne(rs[0])|;
    assert WholeBefore(rs, k)[1..] == WholeBefore(rs[1..], k');
    var partial := if InsideResponse(rs[1..], k') then [Partial] else [];
    PrependOne(TokenOf(rs[0], read), TokensFor(WholeBefore(rs[1..], k'), read), partial);
  }

  lemma PrependOne<T>(a: T, xs: seq<T>, ys: seq<T>)
    ensures [a] + (xs + ys) == [a] + xs + ys
  {
  }

  /** The whole stream: one token a response and nothing else. */
  lemma TokensWhole(rs: seq<Response>, read: Reading)
    requires AllFramed(rs, read)
    ensures TokensOf(EncodeAll(rs), read) == TokensFor(rs, read)
  {
    var k := |EncodeAll(rs)|;
    assert EncodeAll(rs)[..k] == EncodeAll(rs);
    TokensCut(rs, k, read);
    AllWhole(rs);
    assert TokensFor(rs, read) + [] == TokensFor(rs, read);
  }

  lemma {:induction false} AllWhole(rs: seq<Response>)
    ensures WholeBefore(rs, |EncodeAll(rs)|) == rs && !InsideResponse(rs, |EncodeAll(rs)|)
    decreases |rs|
  {
    if rs != [] {
      AllWhole(rs[1..]);
      assert [rs[0]] + rs[1..] == rs;
    }
  }

  // ----- parse -----------------------------------------------------------------------

  datatype Answer = Answer(status: int, body: string)

  /** Why `parse` left off: no complete response at the head, a status line it cannot read, a
      Content-Length `int` raises on, or a negative one, where the source would go on slicing with a
      negative bound. */
  datatype Stop = Incomplete | BadStatus | BadLength | NegativeLength

  datatype Parsed = Parsed(out: seq<Answer>, rest: string, stop: Stop)

  datatype First = Complete(answer: Answer, next: nat) | Not(stop: Stop)

  function StatusNumber(info: HeadInfo): Option<int> {
    if info.status.Some? then ParseInt(info.status.value) else None
  }

  function BodyFirst(data: string, status: Option<int>, length: Option<Option<int>>, bodyAt: nat): (f: First)
    requires 0 < bodyAt <= |data|
    ensures f.Complete? ==> bodyAt <= f.next <= |data|
  {
    if status.None? then Not(BadStatus)
    else
      match length
      case Some(None) => Not(BadLength)
      case None => Complete(Answer(status.value, ""), bodyAt)
      case Some(Some(n)) =>
        if n < 0 then Not(NegativeLength)
        else if |data| < bodyAt + n then Not(Incomplete)
        else Complete(Answer(status.value, data[bodyAt..bodyAt + n]), bodyAt + n)
  }

  function FirstOf(data: string, read: Reading): (f: First)
    ensures f.Complete? ==> 0 < f.next <= |data|
  {
    match Find(data, BLANK_LINE, 0)
    case None => Not(Incomplete)
    case Some(end) =>
      var info := read(data[0..end]);
      BodyFirst(data, StatusNumber(info), info.length, end + 4)
  }

  function Prepend(out: seq<Answer>, p: Parsed): Parsed {
    p.(out := out + p.out)
  }

  function Parse(data: string, read: Reading): Parsed
    decreases |data|
  {
    match FirstOf(data, read)
    case Not(stop) => Parsed([], data, stop)
    case Complete(answer, next) => Prepend([answer], Parse(data[next..], read))
  }

  method ParseResponses(data: string, read: Reading) returns (out: seq<Answer>, rest: string, stop: Stop)
    ensures Parsed(out, rest, stop) == Parse(data, read)
  {
    out, rest := [], data;
    PrependNone(Parse(data, read));
    while true
      invariant Parse(data, read) == Prepend(out, Parse(rest, read))
      decreases |rest|
    {
      var f := FirstOf(rest, read);
      if f.Not? {
        AppendNone(out);
        return out, rest, f.stop;
      }
      PrependTwice(out, [f.answer], Parse(rest[f.next..], read));
      out := out + [f.answer];
      rest := rest[f.next..];
    }
  }

  lemma PrependNone(p: Parsed)
    ensures Prepend([], p) == p
  {
    assert [] + p.out == p.out;
  }

  lemma AppendNone(out: seq<Answer>)
    ensures out + [] == out
  {
  }

  lemma PrependTwice(a: seq<Answer>, b: seq<Answer>, p: Parsed)
    ensures Prepend(a, Prepend(b, p)) == Prepend(a + b, p)
  {
    assert a + (b + p.out) == (a + b) + p.out;
  }

  lemma FirstExtend(a: string, b: string, read: Reading)
    requires FirstOf(a, read) != Not(Incomplete)
    ensures FirstOf(a + b, read) == FirstOf(a, read)
  {
    FindExtend(a, b, BLANK_LINE, 0);
    var end := Find(a, BLANK_LINE, 0).value;
    KeepSlices(a, b, 0, end);
    if FirstOf(a, read).Complete? {
      KeepSlices(a, b, end + 4, FirstOf(a, read).next);
    }
  }

  lemma KeepSlices(a: string, b: string, i: nat, j: nat)
    requires i <= j <= |a|
    ensures (a + b)[i..j] == a[i..j]
    ensures (a + b)[..j] == a[..j]
    ensures (a + b)[j..] == a[j..] + b
  {
  }

  /** `parse` is resumable on any bytes at all: parsing `a + b` gives the answers of `a`, then those of
      what `a` left followed by `b`. A raise stays the same raise. */
  lemma {:induction false} ParseResumes(a: string, b: string, read: Reading)
    ensures var p := Parse(a, read);
            Parse(a + b, read) ==
              if p.stop.Incomplete? || p.stop.BadStatus? then Prepend(p.out, Parse(p.rest + b, read))
              else p.(rest := p.rest + b)
    decreases |a|
  {
    var f, p := FirstOf(a, read), Parse(a, read);
    if f.Not? {
      PrependNone(Parse(a + b, read));
      if f.stop != Incomplete {
        FirstExtend(a, b, read);
      }
    } else {
      FirstExtend(a, b, read);
      KeepSlices(a, b, 0, f.next);
      ParseResumes(a[f.next..], b, read);
      var q := Parse(a[f.next..], read);
      PrependTwice([f.answer], q.out, Parse(q.rest + b, read));
    }
  }

  /** A framed response whose status is a number; without a Content-Length it has no body. */
  predicate Numbered(r: Response, read: Reading) {
    var info := read(r.head);
    && CleanHead(r) && StatusNumber(info).Some?
    && (info.length == Some(Some(|r.body|)) || (info.length == None && r.body == ""))
  }

  predicate AllNumbered(rs: seq<Response>, read: Reading) {
    forall i :: 0 <= i < |rs| ==> Numbered(rs[i], read)
  }

  function AnswerFor(r: Response, read: Reading): Answer {
    var n := StatusNumber(read(r.head));
    Answer(if n.Some? then n.value else 0, r.body)
  }

  function AnswersFor(rs: seq<Response>, read: Reading): seq<Answer> {
    if rs == [] then [] else [AnswerFor(rs[0], read)] + AnswersFor(rs[1..], read)
  }

  lemma FirstParsed(r: Response, tail: string, k: nat, read: Reading)
    requires Numbered(r, read) && k <= |EncodeOne(r)| + |tail|
    ensures k < |EncodeOne(r)| ==> FirstOf((EncodeOne(r) + tail)[..k], read) == Not(Incomplete)
    ensures k >= |EncodeOne(r)| ==>
              FirstOf((EncodeOne(r) + tail)[..k], read) == Complete(AnswerFor(r, read), |EncodeOne(r)|)
  {
    HeadCut(r, tail, k);
  }

  lemma WholeThenParse(r: Response, tail: string, k: nat, read: Reading)
    requires Numbered(r, read) && |EncodeOne(r)| <= k <= |EncodeOne(r)| + |tail|
    ensures Parse((EncodeOne(r) + tail)[..k], read) ==
              Prepend([AnswerFor(r, read)], Parse(tail[..k - |EncodeOne(r)|], read))
  {
    FirstParsed(r, tail, k, read);
    DropFirst(EncodeOne(r), tail, k);
  }

  /** The bytes behind the last whole response. */
  function LeftOf(rs: seq<Response>, k: nat): string
    requires k <= |EncodeAll(rs)|
  {
    if rs == [] || k < |EncodeOne(rs[0])| then EncodeAll(rs)[..k] else LeftOf(rs[1..], k - |EncodeOne(rs[0])|)
  }

  lemma {:induction false} WholeAndLeft(rs: seq<Response>, k: nat)
    requires k <= |EncodeAll(rs)|
    ensures EncodeAll(WholeBefore(rs, k)) + LeftOf(rs, k) == EncodeAll(rs)[..k]
    decreases |rs|
  {
    if rs != [] && k >= |EncodeOne(rs[0])| {
      var k' := k - |EncodeOne(rs[0])|;
      WholeAndLeft(rs[1..], k');
      assert WholeBefore(rs, k)[1..] == WholeBefore(rs[1..], k');
      Assoc(EncodeOne(rs[0]), EncodeAll(WholeBefore(rs[1..], k')), LeftOf(rs[1..], k'));
      assert EncodeAll(rs)[..k] == EncodeOne(rs[0]) + EncodeAll(rs[1..])[..k'];
    }
  }

  /** However much of a stream has arrived, `parse` takes off exactly the whole responses, in order, and
      leaves exactly the bytes behind the last of them. */
  lemma {:induction false} ParseCut(rs: seq<Response>, k: nat, read: Reading)
    requires AllNumbered(rs, read) && k <= |EncodeAll(rs)|
    ensures Parse(EncodeAll(rs)[..k], read) == Parsed(AnswersFor(WholeBefore(rs, k), read), LeftOf(rs, k), Incomplete)
    decreases |rs|
  {
    hide *;
    if rs != [] && k >= |EncodeOne(rs[0])| {
      FirstNumbered(rs, read);
      ParseCut(rs[1..], k - |EncodeOne(rs[0])|, read);
      ParseThenCut(rs, k, read);
    } else {
      ParseNoneWhole(rs, k, read);
    }
  }

  lemma FirstNumbered(rs: seq<Response>, read: Reading)
    requires AllNumbered(rs, read) && rs != []
    ensures Numbered(rs[0], read) && AllNumbered(rs[1..], read)
    ensures |EncodeAll(rs)| == |EncodeOne(rs[0])| + |EncodeAll(rs[1..])|
  {
    hide Numbered, EncodeOne;
  }

  lemma ParseNoneWhole(rs: seq<Response>, k: nat, read: Reading)
    requires AllNumbered(rs, read) && k <= |EncodeAll(rs)| && (rs == [] || k < |EncodeOne(rs[0])|)
    ensures Parse(EncodeAll(rs)[..k], read) == Parsed(AnswersFor(WholeBefore(rs, k), read), LeftOf(rs, k), Incomplete)
  {
    if rs != [] {
      assert Numbered(rs[0], read);
      FirstParsed(rs[0], EncodeAll(rs[1..]), k, read);
    }
  }

  lemma ParseThenCut(rs: seq<Response>, k: nat, read: Reading)
    requires rs != [] && Numbered(rs[0], read) && |EncodeOne(rs[0])| <= k <= |EncodeAll(rs)|
    requires var k' := k - |EncodeOne(rs[0])|;
             Parse(EncodeAll(rs[1..])[..k'], read) ==
               Parsed(AnswersFor(WholeBefore(rs[1..], k'), read), LeftOf(rs[1..], k'), Incomplete)
    ensures Parse(EncodeAll(rs)[..k], read) == Parsed(AnswersFor(WholeBefore(rs, k), read), LeftOf(rs, k), Incomplete)
  {
    WholeThenParse(rs[0], EncodeAll(rs[1..]), k, read);
    AnswersStep(rs, k, read);
  }

  lemma AnswersStep(rs: seq<Response>, k: nat, read: Reading)
    requires rs != [] && k >= |EncodeOne(rs[0])|
    ensures AnswersFor(WholeBefore(rs, k), read) ==
              [AnswerFor(rs[0], read)] + AnswersFor(WholeBefore(rs[1..], k - |EncodeOne(rs[0])|), read)
  {
    assert WholeBefore(rs, k)[1..] == WholeBefore(rs[1..], k - |EncodeOne(rs[0])|);
  }

  // ----- a length that is no number --------------------------------------------------

  /** A head that declares a length that is no number, however many it declares, and a status that is one:
      `parse` raises. */
  lemma UnreadableRaises(data: string, end: nat)
    requires Find(data, BLANK_LINE, 0) == Some(end)
    requires StatusNumber(ParseInfoOf(data[0..end])).Some? && Unreadable(Split(data[0..end], CRLF)[1..])
    ensures Parse(data, ParseInfoOf) == Parsed([], data, BadLength)
  {
    LengthsAgree(Split(data[0..end], CRLF)[1..], None);
    hide Split, StatusWord, Unreadable, StrictLength, DeclaredLength, StatusNumber;
  }
}
