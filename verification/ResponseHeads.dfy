/** Responses as servers send them, read by the two splitters: a status line with a reason or without, header lines
    in any order, and the body. */
module ResponseHeads {
  import opened Text
  import opened TextMeans
  import opened HeaderLines
  import opened Responses

  /** A version, a status code and perhaps a reason; headers; and a body. */
  datatype Reply = Reply(version: string, code: string, reason: Option<string>, headers: seq<Header>, body: string)

  function ReasonText(reason: Option<string>): string {
    match reason
    case None => ""
    case Some(text) => " " + text
  }

  function StatusText(rep: Reply): string {
    rep.version + (" " + (rep.code + ReasonText(rep.reason)))
  }

  /** Lines, each behind a CRLF. */
  function Below(lines: seq<string>): string {
    if lines == [] then "" else CRLF + (lines[0] + Below(lines[1..]))
  }

  function HeadText(rep: Reply): string {
    StatusText(rep) + Below(Lines(rep.headers))
  }

  function Wire(rep: Reply): Response {
    Response(HeadText(rep), rep.body)
  }

  predicate OneLine(s: string) {
    '\r' !in s
  }

  predicate OneLineEach(lines: seq<string>) {
    forall i :: 0 <= i < |lines| ==> lines[i] != "" && OneLine(lines[i])
  }

  predicate GoodReply(rep: Reply) {
    && ' ' !in rep.version && ' ' !in rep.code && OneLine(StatusText(rep))
    && AllGood(rep.headers) && OneLineEach(Lines(rep.headers))
  }

  const LENGTH := "content-length"

  /** The value of the last Content-Length. */
  function Declared(rep: Reply): Option<string> {
    LastValue(rep.headers, LENGTH)
  }

  predicate Informs(code: string) {
    code != "" && code[0] == '1'
  }

  // ----- the status line -----------------------------------------------------------------------------

  lemma StatusRead(rep: Reply)
    requires ' ' !in rep.version && ' ' !in rep.code
    ensures StatusWord(StatusText(rep)) == Some(rep.code)
  {
    var later := rep.code + ReasonText(rep.reason);
    BeforeAfter(rep.version, ' ', later);
    assert StatusText(rep) == rep.version + ([' '] + later);
    match rep.reason
    case None =>
      assert later == rep.code;
      BeforeAll(rep.code, ' ');
    case Some(text) =>
      BeforeAfter(rep.code, ' ', text);
      assert later == rep.code + ([' '] + text);
  }

  // ----- lines ---------------------------------------------------------------------------------------

  lemma NoMarker(s: string)
    requires OneLine(s)
    ensures Find(s, CRLF, 0).None?
  {
    if Find(s, CRLF, 0).Some? {
      OccursStart(s, CRLF, Find(s, CRLF, 0).value);
    }
  }

  lemma {:induction false} SplitLines(first: string, lines: seq<string>)
    requires OneLine(first) && OneLineEach(lines)
    ensures Split(first + Below(lines), CRLF) == [first] + lines
    decreases |lines|
  {
    NoMarker(first);
    if lines == [] {
      NoMore(first);
    } else {
      var later := lines[0] + Below(lines[1..]);
      FindLineEnd(first, later);
      Assoc(first, CRLF, later);
      SplitLines(lines[0], lines[1..]);
      CutLine(first, later);
      FirstAndRest(first, lines);
    }
  }

  lemma CutLine(first: string, later: string)
    ensures var s := first + (CRLF + later); s[..|first|] == first && s[|first| + 2..] == later
  {
  }

  lemma FirstAndRest(first: string, lines: seq<string>)
    requires lines != []
    ensures [first] + ([lines[0]] + lines[1..]) == [first] + lines
  {
  }

  /** A CR is followed by a line. */
  predicate LineBehindCR(s: string) {
    forall j :: 0 <= j < |s| && s[j] == '\r' ==> j + 2 < |s| && s[j + 2] != '\r'
  }

  lemma {:induction false} BelowLines(lines: seq<string>)
    requires OneLineEach(lines)
    ensures LineBehindCR(Below(lines))
    decreases |lines|
  {
    if lines != [] {
      var line, later := lines[0], Below(lines[1..]);
      BelowLines(lines[1..]);
      BehindLine(line, later);
      hide LineBehindCR;
      LineThere(line, later);
    }
  }

  lemma BehindLine(line: string, later: string)
    requires OneLine(line) && LineBehindCR(later)
    ensures LineBehindCR(line + later)
  {
    assert forall j :: 0 <= j < |line| ==> (line + later)[j] in line;
    assert forall j :: 0 <= j < |later| ==> (line + later)[|line| + j] == later[j];
  }

  lemma LineThere(line: string, later: string)
    requires line != "" && OneLine(line) && LineBehindCR(line + later)
    ensures LineBehindCR(CRLF + (line + later))
  {
    var s := CRLF + (line + later);
    assert s[2] == line[0] && line[0] in line;
    forall j | 0 <= j < |s| && s[j] == '\r'
      ensures j + 2 < |s| && s[j + 2] != '\r'
    {
      if j >= 2 {
        assert (line + later)[j - 2] == '\r';
      }
    }
  }

  /** The blank line that ends a head is the first one. */
  lemma HeadClean(rep: Reply)
    requires GoodReply(rep)
    ensures CleanHead(Wire(rep))
  {
    hide LineBehindCR, OneLineEach;
    BelowLines(Lines(rep.headers));
    BehindLine(StatusText(rep), Below(Lines(rep.headers)));
    FirstBlankLine(HeadText(rep));
  }

  lemma FirstBlankLine(head: string)
    requires LineBehindCR(head)
    ensures Find(head + BLANK_LINE, BLANK_LINE, 0) == Some(|head|)
  {
    var s := head + BLANK_LINE;
    assert s[|head|..|head| + 4] == BLANK_LINE && OccursAt(s, BLANK_LINE, |head|);
    assert forall j :: 0 <= j < |head| ==> s[j] == head[j];
    forall j: nat | j < |head|
      ensures !OccursAt(s, BLANK_LINE, j)
    {
      MarkerChars(s, j);
    }
    hide OccursAt;
    FindIs(s, BLANK_LINE, 0, |head|);
  }

  lemma MarkerChars(s: string, j: nat)
    ensures OccursAt(s, BLANK_LINE, j) ==> j + 4 <= |s| && s[j] == '\r' && s[j + 2] == '\r'
  {
    if OccursAt(s, BLANK_LINE, j) {
      var t := s[j..j + 4];
      assert t[0] == s[j] && t[2] == s[j + 2];
    }
  }

  // ----- the declared length -------------------------------------------------------------------------

  lemma IsLength(h: Header)
    requires Good(h)
    ensures Lower(Strip(Before(Line(h), ':'))) == "content-length" <==> SameWord(h.name, LENGTH)
    ensures ParseInt(After(Line(h), ':')) == ParseInt(Value(h))
  {
    hide Strip, Lower, SameWord, Good, Before, After, ParseInt;
    LineRead(h);
    StripTwice(After(Line(h), ':'));
    LowerMeans(h.name, LENGTH);
    SmallLength();
  }

  lemma SmallLength()
    ensures Lower(LENGTH) == "content-length"
  {
    assert NoCapitals(LENGTH);
    SmallAlready(LENGTH);
  }

  lemma {:induction false} DeclaredMore(lines: seq<string>, line: string, length: Option<Option<int>>)
    ensures DeclaredLength(lines + [line], length) ==
              if Lower(Strip(Before(line, ':'))) == "content-length" then Some(ParseInt(After(line, ':')))
              else DeclaredLength(lines, length)
    decreases |lines|
  {
    hide Lower, Strip, Before, After, ParseInt;
    if lines == [] {
      assert ([] + [line])[0] == line && ([] + [line])[1..] == [];
    } else {
      assert (lines + [line])[0] == lines[0] && (lines + [line])[1..] == lines[1..] + [line];
      if Lower(Strip(Before(lines[0], ':'))) == "content-length" {
        DeclaredMore(lines[1..], line, Some(ParseInt(After(lines[0], ':'))));
      } else {
        DeclaredMore(lines[1..], line, length);
      }
    }
  }

  /** A declared value, as a number where it is one. */
  function AsNumber(v: Option<string>): Option<Option<int>> {
    if v.Some? then Some(ParseInt(v.value)) else None
  }

  lemma {:induction false} LengthRead(hs: seq<Header>)
    requires AllGood(hs)
    ensures DeclaredLength(Lines(hs), None) == AsNumber(LastValue(hs, LENGTH))
    decreases |hs|
  {
    hide Lower, Strip, Before, After, ParseInt, Good, Line, SameWord;
    if hs != [] {
      var front, last := hs[..|hs| - 1], hs[|hs| - 1];
      LengthRead(front);
      assert Lines(hs) == Lines(front) + [Line(last)];
      DeclaredMore(Lines(front), Line(last), None);
      assert Good(last);
      IsLength(last);
    }
  }

  /** Some header declares a length that is no number. */
  ghost predicate Garbled(hs: seq<Header>) {
    exists i :: 0 <= i < |hs| && SameWord(hs[i].name, LENGTH) && IsNoNumber(Value(hs[i]))
  }

  ghost predicate IsNoNumber(v: string) {
    forall n :: !Names(v, n)
  }

  lemma NumberOrNot(h: Header)
    requires Good(h)
    ensures ParseInt(Value(h)) == None <==> IsNoNumber(Value(h))
  {
    hide Names, ParseInt;
    ValueIsTrimmed(h);
    TrimmedStays(Value(h));
    forall n
      ensures ParseInt(Value(h)) == Some(n) <==> Names(Value(h), n)
    {
      ParseIntExactly(Value(h), n);
    }
    assert ParseInt(Value(h)).Some? ==> Names(Value(h), ParseInt(Value(h)).value);
  }

  lemma ValueIsTrimmed(h: Header)
    requires Good(h)
    ensures Trimmed(Value(h))
  {
  }

  lemma {:induction false} GarbledRead(hs: seq<Header>)
    requires AllGood(hs)
    ensures Unreadable(Lines(hs)) <==> Garbled(hs)
    decreases |hs|
  {
    hide Lower, Strip, Before, After, ParseInt, Good, Line, SameWord, IsNoNumber;
    if hs != [] {
      assert Good(hs[0]);
      IsLength(hs[0]);
      NumberOrNot(hs[0]);
      assert Lines(hs)[1..] == Lines(hs[1..]);
      GarbledRead(hs[1..]);
      assert forall i :: 0 <= i < |hs[1..]| ==> hs[1..][i] == hs[i + 1];
      assert forall i :: 0 < i < |hs| ==> hs[1..][i - 1] == hs[i];
    }
  }

  /** What the two readings make of a head, in terms of what was sent. */
  lemma HeadIsRead(rep: Reply)
    requires GoodReply(rep)
    ensures InfoOf(HeadText(rep)) == HeadInfo(Some(rep.code), AsNumber(Declared(rep)))
    ensures ParseInfoOf(HeadText(rep)) ==
              HeadInfo(Some(rep.code), if Garbled(rep.headers) then Some(None) else AsNumber(Declared(rep)))
  {
    hide StatusWord, DeclaredLength, StrictLength, Unreadable, Garbled, Split, AsNumber, LastValue, Below, StatusText;
    var lines := Lines(rep.headers);
    SplitLines(StatusText(rep), lines);
    assert ([StatusText(rep)] + lines)[1..] == lines;
    StatusRead(rep);
    LengthRead(rep.headers);
    LengthsAgree(lines, None);
    GarbledRead(rep.headers);
  }

  // ----- replies -------------------------------------------------------------------------------------

  /** The last declared length is that of the body. */
  ghost predicate Sized(rep: Reply) {
    Declared(rep).Some? && Names(Declared(rep).value, |rep.body|)
  }

  lemma {:induction false} LastTrimmed(hs: seq<Header>)
    requires AllGood(hs)
    ensures var v := LastValue(hs, LENGTH); v.Some? ==> Trimmed(v.value)
  {
    hide SameWord;
    if hs != [] {
      assert Good(hs[|hs| - 1]);
      LastTrimmed(hs[..|hs| - 1]);
    }
  }

  /** A declared value is the number it names, or none. */
  lemma DeclaredNumber(rep: Reply, n: int)
    requires GoodReply(rep) && Declared(rep).Some?
    ensures AsNumber(Declared(rep)) == Some(Some(n)) <==> Names(Declared(rep).value, n)
  {
    hide Names, ParseInt, Trimmed;
    LastTrimmed(rep.headers);
    TrimmedStays(Declared(rep).value);
    ParseIntExactly(Declared(rep).value, n);
  }

  /** What `responses` names a reply. */
  function TokenFor(rep: Reply): Token {
    if Informs(rep.code) then Interim(rep.code) else Final(rep.code, rep.body)
  }

  ghost predicate Framing(rep: Reply) {
    GoodReply(rep) && if Informs(rep.code) then rep.body == "" else Sized(rep)
  }

  /** A reply that says how long it is, however its head is written, is one `responses` splits off whole. */
  lemma ReplyRead(rep: Reply)
    requires Framing(rep)
    ensures Framed(Wire(rep), InfoOf) && TokenOf(Wire(rep), InfoOf) == TokenFor(rep)
  {
    hide GoodReply, CleanHead, InfoOf, HeadText, AsNumber, Names, Declared;
    HeadIsRead(rep);
    HeadClean(rep);
    if !Informs(rep.code) {
      DeclaredNumber(rep, |rep.body|);
    }
  }

  /** `parse` asks for a numeral for a status, lengths that are all numbers, and takes no length for no body. */
  ghost predicate ParseFraming(rep: Reply, status: int) {
    && GoodReply(rep) && Names(rep.code, status) && !Garbled(rep.headers)
    && (Sized(rep) || (Declared(rep) == None && rep.body == ""))
  }

  lemma ReplyParsed(rep: Reply, status: int)
    requires ParseFraming(rep, status)
    ensures Numbered(Wire(rep), ParseInfoOf) && AnswerFor(Wire(rep), ParseInfoOf) == Answer(status, rep.body)
  {
    hide GoodReply, CleanHead, ParseInfoOf, HeadText, Names, Garbled, ParseInt, Declared;
    HeadIsRead(rep);
    HeadClean(rep);
    CodeNumber(rep.code, status);
    if Declared(rep).Some? {
      DeclaredNumber(rep, |rep.body|);
    }
  }

  lemma CodeNumber(code: string, status: int)
    requires Names(code, status)
    ensures ParseInt(code) == Some(status)
  {
    var sign, digits :| Numeral(code, sign, digits) &&
      status == if sign == "-" then 0 - Number(digits) else Number(digits);
    hide Number;
    ReadsNumeral(code, sign, digits);
  }

  function Wires(reps: seq<Reply>): (rs: seq<Response>)
    ensures |rs| == |reps| && forall i :: 0 <= i < |reps| ==> rs[i] == Wire(reps[i])
  {
    seq(|reps|, i requires 0 <= i < |reps| => Wire(reps[i]))
  }

  lemma {:induction false} TokensForAt(rs: seq<Response>, read: Reading)
    ensures |TokensFor(rs, read)| == |rs|
    ensures forall i :: 0 <= i < |rs| ==> TokensFor(rs, read)[i] == TokenOf(rs[i], read)
  {
    hide TokenOf;
    if rs != [] {
      TokensForAt(rs[1..], read);
    }
  }

  lemma {:induction false} AnswersForAt(rs: seq<Response>, read: Reading)
    ensures |AnswersFor(rs, read)| == |rs|
    ensures forall i :: 0 <= i < |rs| ==> AnswersFor(rs, read)[i] == AnswerFor(rs[i], read)
  {
    hide AnswerFor;
    if rs != [] {
      AnswersForAt(rs[1..], read);
    }
  }

  /** A stream of replies is read as those replies, in order, and nothing else. */
  lemma RepliesRead(reps: seq<Reply>)
    requires forall i :: 0 <= i < |reps| ==> Framing(reps[i])
    ensures var tokens := TokensOf(EncodeAll(Wires(reps)), InfoOf);
            |tokens| == |reps| && forall i :: 0 <= i < |reps| ==> tokens[i] == TokenFor(reps[i])
  {
    hide Framing, Framed, TokenOf, TokenFor, InfoOf, Wire, EncodeAll;
    forall i | 0 <= i < |reps|
      ensures Framed(Wire(reps[i]), InfoOf) && TokenOf(Wire(reps[i]), InfoOf) == TokenFor(reps[i])
    {
      ReplyRead(reps[i]);
    }
    TokensWhole(Wires(reps), InfoOf);
    TokensForAt(Wires(reps), InfoOf);
  }

  /** `parse` takes all of them off, and leaves nothing. */
  lemma RepliesParsed(reps: seq<Reply>, status: seq<int>)
    requires |status| == |reps| && forall i :: 0 <= i < |reps| ==> ParseFraming(reps[i], status[i])
    ensures var p := Parse(EncodeAll(Wires(reps)), ParseInfoOf);
            && |p.out| == |reps| && p.rest == "" && p.stop == Incomplete
            && forall i :: 0 <= i < |reps| ==> p.out[i] == Answer(status[i], reps[i].body)
  {
    hide ParseFraming, Numbered, AnswerFor, ParseInfoOf, Wire, EncodeAll;
    forall i | 0 <= i < |reps|
      ensures Numbered(Wire(reps[i]), ParseInfoOf)
      ensures AnswerFor(Wire(reps[i]), ParseInfoOf) == Answer(status[i], reps[i].body)
    {
      ReplyParsed(reps[i], status[i]);
    }
    var rs, all := Wires(reps), EncodeAll(Wires(reps));
    assert all[..|all|] == all;
    ParseCut(rs, |all|, ParseInfoOf);
    AllWhole(rs);
    AnswersForAt(rs, ParseInfoOf);
    WholeAndLeft(rs, |all|);
    NothingBehind(all, LeftOf(rs, |all|));
  }

  lemma NothingBehind(s: string, t: string)
    ensures s + t == s ==> t == ""
  {
    assert |s + t| == |s| + |t|;
  }

  // ----- replies that do not say where they end --------------------------------------------------------

  /** The declared length is no number, or a negative one. */
  ghost predicate Senseless(v: string) {
    forall n :: Names(v, n) ==> n < 0
  }

  /** The last reply of a stream: without a length its body is all there is; with one that is senseless, or more
      than there is, it is called partial. */
  lemma LastRead(rep: Reply)
    requires GoodReply(rep) && !Informs(rep.code)
    ensures Declared(rep) == None ==>
              TokensOf(EncodeOne(Wire(rep)), InfoOf) == [Final(rep.code, rep.body)]
    ensures Declared(rep).Some? && Senseless(Declared(rep).value) ==>
              TokensOf(EncodeOne(Wire(rep)), InfoOf) == [Partial]
    ensures Declared(rep).Some? && (exists n :: Names(Declared(rep).value, n) && n > |rep.body|) ==>
              TokensOf(EncodeOne(Wire(rep)), InfoOf) == [Partial]
  {
    hide GoodReply, InfoOf, HeadText, Names, ParseInt, Declared, TokensOf, StepAt, EncodeOne;
    var s := EncodeOne(Wire(rep));
    LastStep(rep);
    if Declared(rep).Some? {
      forall n
        ensures AsNumber(Declared(rep)) == Some(Some(n)) <==> Names(Declared(rep).value, n)
      {
        DeclaredNumber(rep, n);
      }
    }
    LastToken(s, InfoOf);
  }

  lemma LastStep(rep: Reply)
    requires GoodReply(rep)
    ensures var s, bodyAt := EncodeOne(Wire(rep)), |HeadText(rep)| + 4;
            && s != "" && |s| == bodyAt + |rep.body| && s[bodyAt..] == rep.body
            && StepAt(s, 0, InfoOf) == BodyStep(s, HeadInfo(Some(rep.code), AsNumber(Declared(rep))), bodyAt)
  {
    hide GoodReply, InfoOf, HeadText, AsNumber, Declared, EncodeOne, BodyStep, CleanHead;
    HeadIsRead(rep);
    HeadClean(rep);
    OneHead(rep);
  }

  lemma OneHead(rep: Reply)
    requires CleanHead(Wire(rep))
    ensures var s, head := EncodeOne(Wire(rep)), HeadText(rep);
            && Find(s, BLANK_LINE, 0) == Some(|head|) && s[0..|head|] == head && s[|head| + 4..] == rep.body
            && |s| == |head| + 4 + |rep.body|
  {
    hide HeadText;
    FindExtend(HeadText(rep) + BLANK_LINE, rep.body, BLANK_LINE, 0);
  }

  /** Where `parse` takes nothing off: a code that is no numeral stops it whatever is declared, then a length that
      is no number raises, and a negative one is not followed. */
  lemma FirstRefused(rep: Reply)
    requires GoodReply(rep)
    ensures IsNoNumber(Strip(rep.code)) ==> Refuses(rep, BadStatus)
    ensures !IsNoNumber(Strip(rep.code)) && Garbled(rep.headers) ==> Refuses(rep, BadLength)
    ensures !IsNoNumber(Strip(rep.code)) && !Garbled(rep.headers) && BelowZero(rep) ==> Refuses(rep, NegativeLength)
  {
    hide GoodReply, ParseInfoOf, HeadText, Names, ParseInt, Declared, EncodeOne, Strip, Garbled, CleanHead;
    HeadIsRead(rep);
    HeadClean(rep);
    OneHead(rep);
    forall n
      ensures ParseInt(rep.code) == Some(n) <==> Names(Strip(rep.code), n)
    {
      ParseIntExactly(rep.code, n);
    }
    if Declared(rep).Some? {
      forall n
        ensures AsNumber(Declared(rep)) == Some(Some(n)) <==> Names(Declared(rep).value, n)
      {
        DeclaredNumber(rep, n);
      }
    }
    assert ParseInt(rep.code).Some? ==> Names(Strip(rep.code), ParseInt(rep.code).value);
  }

  ghost predicate BelowZero(rep: Reply) {
    Declared(rep).Some? && exists n :: Names(Declared(rep).value, n) && n < 0
  }

  ghost predicate Refuses(rep: Reply, stop: Stop) {
    var s := EncodeOne(Wire(rep));
    Parse(s, ParseInfoOf) == Parsed([], s, stop)
  }

  /** A status line of one word has no status: `responses` calls it `?`, and `parse` stops. */
  lemma NoCode(line: string, length: Option<Option<int>>)
    requires ' ' !in line
    ensures StatusOf(HeadInfo(StatusWord(line), length)) == "?"
    ensures StatusNumber(HeadInfo(StatusWord(line), length)) == None
  {
  }
}
