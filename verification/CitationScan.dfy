/** `find_citations` of scripts/check_citations.py. RFC numbers are numbers; the source keeps them as
    normalised decimal strings. */
module CitationScan {
  import opened Text

  // ----- the citations on a line -----------------------------------------------------------

  function DigitsEnd(line: string, i: nat): (e: nat)
    requires i <= |line|
    ensures i <= e <= |line| && AllDigits(line[i..e]) && (e < |line| ==> !IsDigit(line[e]))
    decreases |line| - i
  {
    if i < |line| && IsDigit(line[i]) then
      var e := DigitsEnd(line, i + 1);
      assert line[i..e] == [line[i]] + line[i + 1..e];
      e
    else i
  }

  datatype Match = Match(rfc: nat, end: nat)

  /** Where the number of a citation at `i` would begin. */
  function NumberAt(line: string, i: nat): nat {
    if i + 3 < |line| && (line[i + 3] == ' ' || line[i + 3] == '-') then i + 4 else i + 3
  }

  /** `\bRFC[ -]?(\d{3,5})\b` at `i`, in either case: three to five digits and no word going on. */
  function MatchAt(line: string, i: nat): (m: Option<Match>)
    ensures m.Some? ==> i < m.value.end <= |line|
  {
    if i + 3 <= |line| && (i > 0 ==> !IsWord(line[i - 1])) && Lower(line[i..i + 3]) == "rfc" then
      var j := NumberAt(line, i);
      var e := DigitsEnd(line, j);
      if 3 <= e - j <= 5 && (e < |line| ==> !IsWord(line[e])) then Some(Match(Number(line[j..e]), e)) else None
    else None
  }

  /** `CITATION.finditer(line)` from `i` on. */
  function Cites(line: string, i: nat): seq<nat>
    decreases |line| - i
  {
    if i >= |line| then []
    else
      match MatchAt(line, i)
      case Some(m) => [m.rfc] + Cites(line, m.end)
      case None => Cites(line, i + 1)
  }

  /** A line of text, and what it cites. */
  function LineOf(text: string): Line {
    Line(Strip(text) == "", Cites(text, 0))
  }

  function LinesOf(texts: seq<string>): (lines: seq<Line>)
    ensures |lines| == |texts|
  {
    if texts == [] then [] else [LineOf(texts[0])] + LinesOf(texts[1..])
  }

  /** A number written out with RFC before it. */
  function Cite(before: string, n: nat, after: string): string {
    before + ("RFC " + (Decimal(n) + after))
  }

  predicate EndsWord(s: string) {
    s != "" && IsWord(s[|s| - 1])
  }

  predicate StartsWord(s: string) {
    s != "" && IsWord(s[0])
  }

  /** The numeral of a citation is the whole run of digits. */
  lemma DigitsRun(line: string, j: nat, d: string)
    requires j + |d| <= |line| && line[j..j + |d|] == d && AllDigits(d)
    requires j + |d| < |line| ==> !IsDigit(line[j + |d|])
    ensures DigitsEnd(line, j) == j + |d|
    decreases |d|
  {
    if d != "" {
      assert line[j] == line[j..j + |d|][0] && line[j + 1..j + |d|] == d[1..];
      DigitsRun(line, j + 1, d[1..]);
    }
  }

  lemma CiteParts(before: string, n: nat, after: string)
    ensures var line, i, d := Cite(before, n, after), |before|, Decimal(n);
            && |line| == i + 4 + |d| + |after|
            && line[i..i + 3] == "RFC" && line[i + 3] == ' ' && line[i + 4..i + 4 + |d|] == d
            && (after != "" ==> line[i + 4 + |d|] == after[0])
            && (before != "" ==> line[i - 1] == before[|before| - 1])
  {
  }

  lemma MatchesThere(before: string, n: nat, after: string)
    requires 100 <= n < 100000 && !EndsWord(before) && !StartsWord(after)
    ensures MatchAt(Cite(before, n, after), |before|) == Some(Match(n, |before| + 4 + |Decimal(n)|))
  {
    hide *;
    CiteParts(before, n, after);
    DecimalWidth(n);
    NoWordThere(before, after);
    MatchesAt(Cite(before, n, after), |before|, n);
  }

  lemma NoWordThere(before: string, after: string)
    requires !EndsWord(before) && !StartsWord(after)
    ensures before != "" ==> !IsWord(before[|before| - 1])
    ensures after != "" ==> !IsWord(after[0])
  {
  }

  lemma MatchesAt(line: string, i: nat, n: nat)
    requires i + 4 + |Decimal(n)| <= |line| && 3 <= |Decimal(n)| <= 5
    requires line[i..i + 3] == "RFC" && line[i + 3] == ' ' && line[i + 4..i + 4 + |Decimal(n)|] == Decimal(n)
    requires i > 0 ==> !IsWord(line[i - 1])
    requires i + 4 + |Decimal(n)| < |line| ==> !IsWord(line[i + 4 + |Decimal(n)|])
    ensures MatchAt(line, i) == Some(Match(n, i + 4 + |Decimal(n)|))
  {
    hide DigitsEnd, Number, Decimal, Lower;
    LowerRfc();
    DecimalRoundTrip(n);
    DigitsRun(line, i + 4, Decimal(n));
  }

  lemma LowerRfc()
    ensures Lower("RFC") == "rfc"
  {
    var r := Lower("RFC");
    assert r[0] == 'r' && r[1] == 'f' && r[2] == 'c';
    assert r == [r[0], r[1], r[2]];
  }

  lemma DecimalWidth(n: nat)
    requires 100 <= n < 100000
    ensures 3 <= |Decimal(n)| <= 5
  {
    var a := n / 10;
    var b := a / 10;
    var c := b / 10;
    assert |Decimal(n)| == 1 + |Decimal(a)| && |Decimal(a)| == 1 + |Decimal(b)|;
    assert b >= 10 ==> |Decimal(b)| == 1 + |Decimal(c)|;
    assert c >= 10 ==> |Decimal(c)| == 1 + |Decimal(c / 10)|;
    assert c / 10 < 10;
  }

  /** What a match is made of: its letters, perhaps a space or a dash, and digits. */
  lemma MatchParts(line: string, i: nat)
    requires MatchAt(line, i).Some?
    ensures var j, e := NumberAt(line, i), MatchAt(line, i).value.end;
            && i + 3 <= j <= e <= |line|
            && LowerChar(line[i + 1]) == 'f' && LowerChar(line[i + 2]) == 'c'
            && forall p :: j <= p < e ==> IsDigit(line[p])
  {
    var j, e := NumberAt(line, i), MatchAt(line, i).value.end;
    var head, digits := line[i..i + 3], line[j..e];
    assert Lower(head)[1] == LowerChar(head[1]) && Lower(head)[2] == LowerChar(head[2]);
    assert head[1] == line[i + 1] && head[2] == line[i + 2];
    assert forall p :: j <= p < e ==> digits[p - j] == line[p];
    hide Lower, Number;
  }

  /** A match that begins before an R ends before it: nothing in a match but its start is an R. */
  lemma MatchEndsBefore(line: string, i: nat, k: nat)
    requires i < k < |line| && line[k] == 'R' && MatchAt(line, i).Some?
    ensures MatchAt(line, i).value.end <= k
  {
    MatchParts(line, i);
    hide MatchAt;
  }

  /** A citation is found wherever it stands, whatever else the line cites. */
  lemma {:induction false} CiteFound(before: string, n: nat, after: string, i: nat)
    requires 100 <= n < 100000 && !EndsWord(before) && !StartsWord(after) && i <= |before|
    ensures n in Cites(Cite(before, n, after), i)
    decreases |before| - i
  {
    var line, k := Cite(before, n, after), |before|;
    hide MatchAt, Cite, EndsWord, StartsWord, Decimal;
    CiteParts(before, n, after);
    if i == k {
      MatchesThere(before, n, after);
    } else {
      StartsWithR(line, k);
      if MatchAt(line, i).Some? {
        MatchEndsBefore(line, i, k);
        CiteFound(before, n, after, MatchAt(line, i).value.end);
      } else {
        CiteFound(before, n, after, i + 1);
      }
    }
  }

  lemma StartsWithR(line: string, k: nat)
    requires k + 3 <= |line| && line[k..k + 3] == "RFC"
    ensures line[k] == 'R'
  {
    assert line[k..k + 3][0] == line[k];
  }

  // ----- scanning ------------------------------------------------------------------------

  datatype Line = Line(blank: bool, cites: seq<nat>)

  datatype Citation = Citation(line: nat, rfc: nat, paragraph: set<nat>)

  datatype Mention = Mention(line: nat, rfc: nat)

  /** Lines `i` and `j` stand in one run of non-blank lines. */
  ghost predicate SameParagraph(lines: seq<Line>, i: nat, j: nat)
    requires i < |lines| && j < |lines|
  {
    forall k :: (i <= k <= j || j <= k <= i) ==> !lines[k].blank
  }

  /** Every RFC cited in the paragraph of line `i`. */
  ghost function CitedNear(lines: seq<Line>, i: nat): set<nat>
    requires i < |lines|
  {
    set j, r | 0 <= j < |lines| && SameParagraph(lines, i, j) && r in lines[j].cites :: r
  }

  function LineCitations(n: nat, cites: seq<nat>, paragraph: set<nat>): seq<Citation> {
    if cites == [] then [] else [Citation(n, cites[0], paragraph)] + LineCitations(n, cites[1..], paragraph)
  }

  /** The citations of lines `a` to `b`, in order, each with its paragraph's RFCs. */
  ghost function CitationsOf(lines: seq<Line>, a: nat, b: nat): seq<Citation>
    requires a <= b <= |lines|
    decreases b - a
  {
    if a == b then []
    else if lines[b - 1].blank then CitationsOf(lines, a, b - 1)
    else CitationsOf(lines, a, b - 1) + LineCitations(b, lines[b - 1].cites, CitedNear(lines, b - 1))
  }

  function LineMentions(n: nat, cites: seq<nat>): seq<Mention> {
    if cites == [] then [] else [Mention(n, cites[0])] + LineMentions(n, cites[1..])
  }

  function Mentions(lines: seq<Line>, a: nat, b: nat): seq<Mention>
    requires a <= b <= |lines|
    decreases b - a
  {
    if a == b then [] else Mentions(lines, a, b - 1) + LineMentions(b, lines[b - 1].cites)
  }

  function Numbers(para: seq<Mention>): set<nat> {
    set i | 0 <= i < |para| :: para[i].rfc
  }

  function WithParagraph(para: seq<Mention>, rfcs: set<nat>): seq<Citation> {
    if para == [] then [] else [Citation(para[0].line, para[0].rfc, rfcs)] + WithParagraph(para[1..], rfcs)
  }

  /** The source's pass: mentions gather in `para`, and a blank line or the end gives the paragraph out. */
  method FindCitations(text: string) returns (found: seq<Citation>)
    ensures found == CitationsOf(LinesOf(Split(text, "\n")), 0, |LinesOf(Split(text, "\n"))|)
  {
    found := ScanLines(LinesOf(Split(text, "\n")));
  }

  method ScanLines(lines: seq<Line>) returns (found: seq<Citation>)
    ensures found == CitationsOf(lines, 0, |lines|)
  {
    hide *;
    found := [];
    var para: seq<Mention> := [];
    ghost var start := 0;
    ScanStart(lines);
    for i := 0 to |lines|
      invariant start <= i && Run(lines, start, i)
      invariant found == CitationsOf(lines, 0, start) && para == Mentions(lines, start, i)
    {
      if lines[i].blank {
        FlushParagraph(lines, start, i, found, para);
        found := found + WithParagraph(para, Numbers(para));
        para := [];
        start := i + 1;
        NoneBlank(lines, i);
      } else {
        RunOn(lines, start, i);
        para := AddMentions(para, i + 1, lines[i].cites);
      }
    }
    FlushParagraph(lines, start, |lines|, found, para);
    found := found + WithParagraph(para, Numbers(para));
  }

  lemma ScanStart(lines: seq<Line>)
    ensures Run(lines, 0, 0) && CitationsOf(lines, 0, 0) == [] && Mentions(lines, 0, 0) == []
  {
  }

  lemma RunOn(lines: seq<Line>, start: nat, i: nat)
    requires i < |lines| && Run(lines, start, i) && !lines[i].blank
    ensures Run(lines, start, i + 1)
    ensures Mentions(lines, start, i + 1) == Mentions(lines, start, i) + LineMentions(i + 1, lines[i].cites)
  {
  }

  /** The citations of one line, gathered one by one. */
  method AddMentions(para: seq<Mention>, n: nat, cites: seq<nat>) returns (more: seq<Mention>)
    ensures more == para + LineMentions(n, cites)
  {
    more := para;
    for j := 0 to |cites|
      invariant more + LineMentions(n, cites[j..]) == para + LineMentions(n, cites)
    {
      OneMention(more, n, cites, j);
      more := more + [Mention(n, cites[j])];
    }
    assert more + [] == more;
  }

  /** Lines `start` to `end` are not blank, and the line before them is, if there is one. */
  predicate Run(lines: seq<Line>, start: nat, end: nat) {
    && start <= end <= |lines|
    && (forall k :: start <= k < end ==> !lines[k].blank)
    && (start > 0 ==> lines[start - 1].blank)
  }

  lemma OneMention(para: seq<Mention>, n: nat, cites: seq<nat>, j: nat)
    requires j < |cites|
    ensures para + LineMentions(n, cites[j..]) == para + [Mention(n, cites[j])] + LineMentions(n, cites[j + 1..])
  {
    assert cites[j..][1..] == cites[j + 1..];
  }

  lemma NoneBlank(lines: seq<Line>, i: nat)
    requires i < |lines| && lines[i].blank
    ensures CitationsOf(lines, 0, i + 1) == CitationsOf(lines, 0, i)
    ensures Run(lines, i + 1, i + 1) && Mentions(lines, i + 1, i + 1) == []
  {
    assert CitationsOf(lines, 0, i) + [] == CitationsOf(lines, 0, i);
  }

  /** Giving a paragraph out: what was gathered, with what the whole paragraph cites. */
  lemma FlushParagraph(lines: seq<Line>, start: nat, end: nat, found: seq<Citation>, para: seq<Mention>)
    requires Run(lines, start, end) && (end < |lines| ==> lines[end].blank)
    requires found == CitationsOf(lines, 0, start) && para == Mentions(lines, start, end)
    ensures found + WithParagraph(para, Numbers(para)) == CitationsOf(lines, 0, end)
  {
    forall i | start <= i < end
      ensures CitedNear(lines, i) == Numbers(para)
    {
      ParagraphNumbers(lines, start, end, i);
    }
    GiveOut(lines, start, end, Numbers(para));
  }

  lemma {:induction false} GiveOut(lines: seq<Line>, start: nat, end: nat, rfcs: set<nat>)
    requires start <= end <= |lines| && forall k | start <= k < end :: !lines[k].blank && CitedNear(lines, k) == rfcs
    ensures CitationsOf(lines, 0, start) + WithParagraph(Mentions(lines, start, end), rfcs) ==
              CitationsOf(lines, 0, end)
    decreases end - start
  {
    var before := CitationsOf(lines, 0, start);
    if start == end {
      assert before + [] == before;
    } else {
      GiveOut(lines, start, end - 1, rfcs);
      var m, last := Mentions(lines, start, end - 1), LineMentions(end, lines[end - 1].cites);
      WithAppend(m, last, rfcs);
      WithLine(end, lines[end - 1].cites, rfcs);
      var a, b := WithParagraph(m, rfcs), WithParagraph(last, rfcs);
      assert before + (a + b) == (before + a) + b;
    }
  }

  lemma {:induction false} WithAppend(a: seq<Mention>, b: seq<Mention>, rfcs: set<nat>)
    ensures WithParagraph(a + b, rfcs) == WithParagraph(a, rfcs) + WithParagraph(b, rfcs)
  {
    if a == [] {
      assert a + b == b;
    } else {
      assert (a + b)[1..] == a[1..] + b;
      WithAppend(a[1..], b, rfcs);
    }
  }

  lemma {:induction false} WithLine(n: nat, cites: seq<nat>, rfcs: set<nat>)
    ensures WithParagraph(LineMentions(n, cites), rfcs) == LineCitations(n, cites, rfcs)
  {
    if cites != [] {
      assert LineMentions(n, cites)[1..] == LineMentions(n, cites[1..]);
      WithLine(n, cites[1..], rfcs);
    }
  }

  /** What a maximal run gathers is what every one of its lines has near it. */
  lemma ParagraphNumbers(lines: seq<Line>, start: nat, end: nat, i: nat)
    requires Run(lines, start, end) && (end < |lines| ==> lines[end].blank)
    requires start <= i < end
    ensures CitedNear(lines, i) == Numbers(Mentions(lines, start, end))
  {
    forall r
      ensures r in CitedNear(lines, i) <==> r in Numbers(Mentions(lines, start, end))
    {
      InMentions(lines, start, end, r);
      if r in CitedNear(lines, i) {
        var j :| 0 <= j < |lines| && SameParagraph(lines, i, j) && r in lines[j].cites;
        InSameRun(lines, start, end, i, j);
      }
      if j :| start <= j < end && r in lines[j].cites {
        assert SameParagraph(lines, i, j);
      }
    }
  }

  lemma InSameRun(lines: seq<Line>, start: nat, end: nat, i: nat, j: nat)
    requires Run(lines, start, end) && (end < |lines| ==> lines[end].blank)
    requires start <= i < end && j < |lines| && SameParagraph(lines, i, j)
    ensures start <= j < end
  {
  }

  lemma {:induction false} InMentions(lines: seq<Line>, a: nat, b: nat, r: nat)
    requires a <= b <= |lines|
    ensures r in Numbers(Mentions(lines, a, b)) <==> CitedBetween(lines, a, b, r)
    decreases b - a
  {
    hide Numbers, LineMentions;
    if a < b {
      InMentions(lines, a, b - 1, r);
      NumbersAppend(Mentions(lines, a, b - 1), LineMentions(b, lines[b - 1].cites), r);
      InLine(b, lines[b - 1].cites, r);
    } else {
      NoNumbers();
    }
  }

  lemma NoNumbers()
    ensures Numbers([]) == {}
  {
  }

  ghost predicate CitedBetween(lines: seq<Line>, a: nat, b: nat, r: nat)
    requires b <= |lines|
  {
    exists j :: a <= j < b && r in lines[j].cites
  }

  lemma NumbersAppend(a: seq<Mention>, b: seq<Mention>, r: nat)
    ensures r in Numbers(a + b) <==> r in Numbers(a) || r in Numbers(b)
  {
    if i :| 0 <= i < |a| && a[i].rfc == r {
      assert (a + b)[i].rfc == r;
    }
    if i :| 0 <= i < |b| && b[i].rfc == r {
      assert (a + b)[|a| + i].rfc == r;
    }
    if i :| 0 <= i < |a + b| && (a + b)[i].rfc == r {
      assert if i < |a| then a[i].rfc == r else b[i - |a|].rfc == r;
    }
  }

  lemma {:induction false} InLine(n: nat, cites: seq<nat>, r: nat)
    ensures r in Numbers(LineMentions(n, cites)) <==> r in cites
  {
    if cites != [] {
      InLine(n, cites[1..], r);
      NumbersAppend([Mention(n, cites[0])], LineMentions(n, cites[1..]), r);
      assert r in Numbers([Mention(n, cites[0])]) <==> r == cites[0] by {
        assert [Mention(n, cites[0])][0].rfc == cites[0];
      }
      assert cites == [cites[0]] + cites[1..];
    } else {
      assert Numbers([]) == {};
    }
  }
}
