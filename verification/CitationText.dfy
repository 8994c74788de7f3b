/** What `find_citations` of scripts/check_citations.py finds, said of the text itself. */
module CitationText {
  import opened Text
  import opened TextMeans
  import opened CitationScan

  /** RFC in any letters, perhaps a space or a dash, and three to five digits. */
  predicate Written(tag: string, sep: string, digits: string) {
    && SameWord(tag, "rfc") && (sep == "" || sep == " " || sep == "-")
    && AllDigits(digits) && 3 <= |digits| <= 5
  }

  /** It stands there as a word of its own. */
  predicate StandsAt(line: string, i: nat, tag: string, sep: string, digits: string) {
    var end := i + |tag| + |sep| + |digits|;
    && Written(tag, sep, digits) && OccursAt(line, tag + (sep + digits), i)
    && (i > 0 ==> !IsWord(line[i - 1])) && (end < |line| ==> !IsWord(line[end]))
  }

  predicate StandsFor(line: string, i: nat, tag: string, sep: string, digits: string, n: nat) {
    StandsAt(line, i, tag, sep, digits) && Number(digits) == n
  }

  ghost predicate CitedAt(line: string, i: nat, n: nat) {
    exists tag, sep, digits :: StandsFor(line, i, tag, sep, digits, n)
  }

  ghost predicate CitedOn(line: string, n: nat) {
    exists p: nat :: CitedAt(line, p, n)
  }

  // ----- one place -----------------------------------------------------------------------------------

  lemma Tag(tag: string)
    ensures Lower(tag) == "rfc" <==> SameWord(tag, "rfc")
  {
    LowerMeans(tag, "rfc");
    SmallRfc();
  }

  lemma SmallRfc()
    ensures Lower("rfc") == "rfc"
  {
    assert NoCapitals("rfc");
    SmallAlready("rfc");
  }

  lemma Pieces(line: string, i: nat, tag: string, sep: string, digits: string)
    requires OccursAt(line, tag + (sep + digits), i)
    ensures var j := i + |tag| + |sep|;
            && j + |digits| <= |line| && line[i..i + |tag|] == tag && line[i + |tag|..j] == sep
            && line[j..j + |digits|] == digits
  {
    var all := tag + (sep + digits);
    var t := line[i..i + |all|];
    assert t == all;
    assert t[..|tag|] == tag && t[|tag|..|tag| + |sep|] == sep && t[|tag| + |sep|..] == digits;
    SliceThere(line, i, |all|, 0, |tag|);
    SliceThere(line, i, |all|, |tag|, |tag| + |sep|);
    SliceThere(line, i, |all|, |tag| + |sep|, |all|);
  }

  lemma SliceThere(s: string, i: nat, n: nat, a: nat, b: nat)
    requires a <= b <= n && i + n <= |s|
    ensures s[i..i + n][a..b] == s[i + a..i + b]
  {
    var t := s[i..i + n];
    forall k | 0 <= k < b - a
      ensures t[a..b][k] == s[i + a..i + b][k]
    {
    }
  }

  lemma Together(line: string, i: nat, j: nat, k: nat, e: nat)
    requires i <= j <= k <= e <= |line|
    ensures OccursAt(line, line[i..j] + (line[j..k] + line[k..e]), i)
  {
    assert line[i..j] + (line[j..k] + line[k..e]) == line[i..e];
  }

  lemma SepIs(line: string, i: nat, sep: string, digits: string)
    requires i + 3 + |sep| + |digits| <= |line| && digits != "" && AllDigits(digits)
    requires sep == "" || sep == " " || sep == "-"
    requires line[i + 3..i + 3 + |sep|] == sep && line[i + 3 + |sep|..i + 3 + |sep| + |digits|] == digits
    ensures NumberAt(line, i) == i + 3 + |sep|
  {
    if sep == "" {
      assert line[i + 3] == line[i + 3..i + 3 + |digits|][0] && IsDigit(digits[0]);
    } else {
      assert line[i + 3] == line[i + 3..i + 4][0];
    }
  }

  /** A citation that stands there is matched, as its number. */
  lemma StandsMatched(line: string, i: nat, tag: string, sep: string, digits: string)
    requires StandsAt(line, i, tag, sep, digits)
    ensures MatchAt(line, i) == Some(Match(Number(digits), i + |tag| + |sep| + |digits|))
  {
    hide *;
    StandsParts(line, i, tag, sep, digits);
    Pieces(line, i, tag, sep, digits);
    Tag(tag);
    SepIs(line, i, sep, digits);
    DigitsRun(line, i + 3 + |sep|, digits);
    MatchedAs(line, i, i + 3 + |sep|, i + 3 + |sep| + |digits|);
  }

  lemma StandsParts(line: string, i: nat, tag: string, sep: string, digits: string)
    requires StandsAt(line, i, tag, sep, digits)
    ensures SameWord(tag, "rfc") && |tag| == 3 && (sep == "" || sep == " " || sep == "-")
    ensures AllDigits(digits) && 3 <= |digits| <= 5 && OccursAt(line, tag + (sep + digits), i)
    ensures i > 0 && i <= |line| ==> !IsWord(line[i - 1])
    ensures var end := i + 3 + |sep| + |digits|; end < |line| ==> !IsWord(line[end]) && !IsDigit(line[end])
  {
    hide OccursAt, AllDigits;
    ThreeLetters(tag);
  }

  lemma MatchedAs(line: string, i: nat, j: nat, e: nat)
    requires i + 3 <= j <= e <= |line| && Lower(line[i..i + 3]) == "rfc" && (i > 0 ==> !IsWord(line[i - 1]))
    requires NumberAt(line, i) == j && DigitsEnd(line, j) == e && AllDigits(line[j..e])
    requires 3 <= e - j <= 5 && (e < |line| ==> !IsWord(line[e]))
    ensures MatchAt(line, i) == Some(Match(Number(line[j..e]), e))
  {
    hide Lower, DigitsEnd, Number, AllDigits;
  }

  lemma ThreeLetters(tag: string)
    requires SameWord(tag, "rfc")
    ensures |tag| == 3
  {
  }

  lemma MatchedStands(line: string, i: nat)
    requires MatchAt(line, i).Some?
    ensures CitedAt(line, i, MatchAt(line, i).value.rfc)
  {
    var j, e := NumberAt(line, i), MatchAt(line, i).value.end;
    Tag(line[i..i + 3]);
    hide Lower, SameWord, Number, DigitsEnd, OccursAt;
    assert e == DigitsEnd(line, j);
    var tag, sep, digits := line[i..i + 3], line[i + 3..j], line[j..e];
    assert j == i + 4 ==> sep == [line[i + 3]];
    Together(line, i, i + 3, j, e);
    assert StandsFor(line, i, tag, sep, digits, MatchAt(line, i).value.rfc);
  }

  lemma CitedMatched(line: string, i: nat, n: nat)
    ensures CitedAt(line, i, n) <==> MatchAt(line, i).Some? && MatchAt(line, i).value.rfc == n
  {
    hide MatchAt, StandsAt;
    if CitedAt(line, i, n) {
      var tag, sep, digits :| StandsFor(line, i, tag, sep, digits, n);
      StandsMatched(line, i, tag, sep, digits);
    }
    if MatchAt(line, i).Some? {
      MatchedStands(line, i);
    }
  }

  // ----- one line ------------------------------------------------------------------------------------

  lemma BeginsWithR(line: string, i: nat)
    requires MatchAt(line, i).Some?
    ensures i < |line| && LowerChar(line[i]) == 'r'
  {
    var head := line[i..i + 3];
    assert Lower(head)[0] == LowerChar(head[0]) && head[0] == line[i];
    hide Lower, Number;
  }

  /** No citation begins inside another. */
  lemma NoneInside(line: string, i: nat, k: nat)
    requires MatchAt(line, i).Some? && i < k < MatchAt(line, i).value.end
    ensures MatchAt(line, k).None?
  {
    MatchParts(line, i);
    if MatchAt(line, k).Some? {
      BeginsWithR(line, k);
    }
    hide MatchAt, Lower;
  }

  /** The numbers found on a line are those that stand on it, each at its place, in order; none is missed. */
  lemma {:induction false} CitesAreThose(line: string, i: nat) returns (places: seq<nat>)
    ensures |places| == |Cites(line, i)|
    ensures forall k :: 0 <= k < |places| ==> i <= places[k] && CitedAt(line, places[k], Cites(line, i)[k])
    ensures forall j, k :: 0 <= j < k < |places| ==> places[j] < places[k]
    ensures forall p, n :: i <= p && CitedAt(line, p, n) ==> p in places
    decreases |line| - i
  {
    hide CitedAt, MatchAt;
    CitedSomewhere(line, i);
    if i >= |line| {
      places := [];
    } else {
      match MatchAt(line, i)
      case Some(m) =>
        var more := CitesAreThose(line, m.end);
        places := [i] + more;
      case None =>
        places := CitesAreThose(line, i + 1);
    }
  }

  /** Where citations stand from `i` on: at `i`, if one is matched there, and behind that one. */
  lemma CitedSomewhere(line: string, i: nat)
    ensures MatchAt(line, i).Some? ==>
              CitedAt(line, i, MatchAt(line, i).value.rfc) &&
              forall p, n :: i < p < MatchAt(line, i).value.end ==> !CitedAt(line, p, n)
    ensures MatchAt(line, i).None? ==> forall n :: !CitedAt(line, i, n)
    ensures forall p, n :: p >= |line| ==> !CitedAt(line, p, n)
    ensures MatchAt(line, i).Some? ==> MatchAt(line, i).value.end > i
  {
    hide CitedAt;
    forall p: nat, n
      ensures CitedAt(line, p, n) <==> MatchAt(line, p).Some? && MatchAt(line, p).value.rfc == n
    {
      CitedMatched(line, p, n);
    }
    if MatchAt(line, i).Some? {
      forall p: nat | i < p < MatchAt(line, i).value.end
        ensures MatchAt(line, p).None?
      {
        NoneInside(line, i, p);
      }
    }
    hide MatchAt;
    forall p: nat | p >= |line|
      ensures MatchAt(line, p).None?
    {
      NoneBehind(line, p);
    }
  }

  lemma NoneBehind(line: string, p: nat)
    requires p >= |line|
    ensures MatchAt(line, p).None?
  {
  }

  lemma CitesExactly(line: string, n: nat)
    ensures n in Cites(line, 0) <==> CitedOn(line, n)
  {
    hide CitedAt, Cites;
    var places := CitesAreThose(line, 0);
    if n in Cites(line, 0) {
      var k :| 0 <= k < |Cites(line, 0)| && Cites(line, 0)[k] == n;
      assert CitedAt(line, places[k], n);
    }
    if i: nat :| CitedAt(line, i, n) {
      assert i in places;
      var k :| 0 <= k < |places| && places[k] == i;
      CitedOnce(line, i, n, Cites(line, 0)[k]);
    }
  }

  lemma CitedOnce(line: string, i: nat, m: nat, n: nat)
    requires CitedAt(line, i, m) && CitedAt(line, i, n)
    ensures m == n
  {
    hide CitedAt, MatchAt;
    CitedMatched(line, i, m);
    CitedMatched(line, i, n);
  }

  // ----- the whole text --------------------------------------------------------------------------------

  /** Lines `i` and `j` stand in one run of lines that are not blank throughout. */
  ghost predicate SameRun(lines: seq<string>, i: nat, j: nat)
    requires i < |lines| && j < |lines|
  {
    forall k :: (i <= k <= j || j <= k <= i) ==> !Blanks(lines[k])
  }

  /** `r` is cited on some line of the paragraph of line `i`. */
  ghost predicate CitedAround(lines: seq<string>, i: nat, r: nat)
    requires i < |lines|
  {
    exists j :: 0 <= j < |lines| && SameRun(lines, i, j) && CitedOn(lines[j], r)
  }

  ghost predicate Around(lines: seq<string>, i: nat, paragraph: set<nat>)
    requires i < |lines|
  {
    forall r :: r in paragraph <==> CitedAround(lines, i, r)
  }

  /** The citation stands in the text: its number on its line, counted from one, with its paragraph's numbers. */
  ghost predicate Standing(lines: seq<string>, c: Citation) {
    && 0 < c.line <= |lines| && Around(lines, c.line - 1, c.paragraph)
    && CitedOn(lines[c.line - 1], c.rfc)
  }

  /** What is found is what stands in the text, line after line. */
  method CitationsOfText(text: string) returns (found: seq<Citation>, ghost lines: seq<string>)
    ensures lines != [] && Join(lines, "\n") == text && forall i :: 0 <= i < |lines| ==> Find(lines[i], "\n", 0).None?
    ensures forall c :: c in found <==> Standing(lines, c)
    ensures InOrder(found)
  {
    found := FindCitations(text);
    lines := Split(text, "\n");
    SplitMeans(text, "\n");
    FoundAreThose(lines);
    InLineOrder(LinesOf(lines), 0, |lines|);
  }

  lemma {:induction false} LineIs(texts: seq<string>, i: nat)
    requires i < |texts|
    ensures LinesOf(texts)[i] == LineOf(texts[i])
  {
    if i > 0 {
      LineIs(texts[1..], i - 1);
    }
  }

  lemma LineMeans(texts: seq<string>, i: nat)
    requires i < |texts|
    ensures LinesOf(texts)[i].blank <==> Blanks(texts[i])
    ensures forall n :: n in LinesOf(texts)[i].cites <==> CitedOn(texts[i], n)
  {
    hide CitedOn, Blanks, Cites;
    LineIs(texts, i);
    BlankMeans(texts[i]);
    forall n
      ensures n in Cites(texts[i], 0) <==> CitedOn(texts[i], n)
    {
      CitesExactly(texts[i], n);
    }
  }

  /** A line with a citation is not blank. */
  lemma CitedNotBlank(line: string, n: nat)
    requires CitedOn(line, n)
    ensures !Blanks(line)
  {
    hide CitedAt, MatchAt;
    var i: nat :| CitedAt(line, i, n);
    CitedMatched(line, i, n);
    BeginsWithR(line, i);
  }

  lemma RunIs(texts: seq<string>, i: nat, j: nat)
    requires i < |texts| && j < |texts|
    ensures SameParagraph(LinesOf(texts), i, j) <==> SameRun(texts, i, j)
  {
    hide *;
    var lines := LinesOf(texts);
    forall k | 0 <= k < |texts|
      ensures lines[k].blank <==> Blanks(texts[k])
    {
      LineMeans(texts, k);
    }
    SameRuns(lines, texts, i, j);
  }

  lemma SameRuns(lines: seq<Line>, texts: seq<string>, i: nat, j: nat)
    requires |lines| == |texts| && i < |texts| && j < |texts|
    requires forall k :: 0 <= k < |texts| ==> (lines[k].blank <==> Blanks(texts[k]))
    ensures SameParagraph(lines, i, j) <==> SameRun(texts, i, j)
  {
    hide Blanks;
  }

  lemma NearIs(texts: seq<string>, i: nat)
    requires i < |texts|
    ensures Around(texts, i, CitedNear(LinesOf(texts), i))
  {
    hide SameParagraph, SameRun, CitedOn;
    forall r
      ensures r in CitedNear(LinesOf(texts), i) <==> CitedAround(texts, i, r)
    {
      forall j | 0 <= j < |texts|
        ensures SameParagraph(LinesOf(texts), i, j) <==> SameRun(texts, i, j)
        ensures r in LinesOf(texts)[j].cites <==> CitedOn(texts[j], r)
      {
        RunIs(texts, i, j);
        LineMeans(texts, j);
      }
    }
  }

  ghost predicate OnLine(lines: seq<Line>, a: nat, b: nat, c: Citation)
    requires a <= b <= |lines|
  {
    && a < c.line <= b && !lines[c.line - 1].blank
    && c.rfc in lines[c.line - 1].cites && c.paragraph == CitedNear(lines, c.line - 1)
  }

  lemma {:induction false} LineCitationsAre(n: nat, cites: seq<nat>, paragraph: set<nat>, c: Citation)
    ensures c in LineCitations(n, cites, paragraph) <==> c.line == n && c.rfc in cites && c.paragraph == paragraph
    decreases |cites|
  {
    if cites != [] {
      LineCitationsAre(n, cites[1..], paragraph, c);
      assert cites == [cites[0]] + cites[1..];
    }
  }

  lemma {:induction false} CitationsAre(lines: seq<Line>, a: nat, b: nat, c: Citation)
    requires a <= b <= |lines|
    ensures c in CitationsOf(lines, a, b) <==> OnLine(lines, a, b, c)
    decreases b - a
  {
    hide CitedNear;
    if a < b {
      CitationsAre(lines, a, b - 1, c);
      LineCitationsAre(b, lines[b - 1].cites, CitedNear(lines, b - 1), c);
    }
  }

  predicate InOrder(found: seq<Citation>) {
    forall j, k :: 0 <= j < k < |found| ==> found[j].line <= found[k].line
  }

  lemma {:induction false} InLineOrder(lines: seq<Line>, a: nat, b: nat)
    requires a <= b <= |lines|
    ensures InOrder(CitationsOf(lines, a, b))
    decreases b - a
  {
    hide InOrder, CitedNear;
    if a == b {
      NoneInOrder();
    } else {
      InLineOrder(lines, a, b - 1);
      if !lines[b - 1].blank {
        OneLineMore(lines, a, b);
      }
    }
  }

  lemma NoneInOrder()
    ensures InOrder([])
  {
  }

  lemma OneLineMore(lines: seq<Line>, a: nat, b: nat)
    requires a < b <= |lines| && InOrder(CitationsOf(lines, a, b - 1))
    ensures InOrder(CitationsOf(lines, a, b - 1) + LineCitations(b, lines[b - 1].cites, CitedNear(lines, b - 1)))
  {
    hide CitedNear;
    var front, last := CitationsOf(lines, a, b - 1), LineCitations(b, lines[b - 1].cites, CitedNear(lines, b - 1));
    forall j | 0 <= j < |front|
      ensures front[j].line < b
    {
      CitationsAre(lines, a, b - 1, front[j]);
      assert front[j] in front;
    }
    forall k | 0 <= k < |last|
      ensures last[k].line == b
    {
      LineCitationsAre(b, lines[b - 1].cites, CitedNear(lines, b - 1), last[k]);
      assert last[k] in last;
    }
  }

  lemma FoundAreThose(texts: seq<string>)
    ensures forall c :: c in CitationsOf(LinesOf(texts), 0, |texts|) <==> Standing(texts, c)
  {
    hide CitedOn, Blanks, CitedAround, CitedNear;
    var lines := LinesOf(texts);
    forall c
      ensures c in CitationsOf(lines, 0, |texts|) <==> Standing(texts, c)
    {
      CitationsAre(lines, 0, |texts|, c);
      if 0 < c.line <= |texts| {
        LineMeans(texts, c.line - 1);
        NearIs(texts, c.line - 1);
        if CitedOn(texts[c.line - 1], c.rfc) {
          CitedNotBlank(texts[c.line - 1], c.rfc);
        }
        if Around(texts, c.line - 1, c.paragraph) {
          assert c.paragraph == CitedNear(lines, c.line - 1);
        }
      }
    }
  }
}
