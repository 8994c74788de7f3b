/** `code_only` of scripts/check_task_shells.py shows of a text exactly what its items are to show. */
module CodeOnlyText {
  import opened Text
  import opened CodeOnly
  import Shell = ShellText

  predicate Delimiters(pending: seq<string>) {
    forall i :: 0 <= i < |pending| ==> Shell.IsDelimiter(pending[i])
  }

  // ----- the lexer's words and the text's ----------------------------------------------------------

  lemma CommentAgrees(body: string, i: nat)
    requires i < |body|
    ensures OpensComment(body, i) <==>
              body[i] == '#' && Shell.OpensComment(if i == 0 then None else Some(body[i - 1]))
  {
  }

  lemma LettersAgree(c: char)
    ensures WordStart(c) <==> Shell.Letter(c)
    ensures (WordStart(c) || IsDigit(c)) <==> Shell.WordChar(c)
  {
  }

  lemma {:induction false} NewlinesAre(s: string)
    ensures Breaks(Count(s)) == Shell.Newlines(s)
  {
    if s != "" {
      NewlinesAre(s[1..]);
      CountFirst(s);
      BreaksFirst(Count(s[1..]));
    }
  }

  lemma CountFirst(s: string)
    requires s != ""
    ensures Count(s) == (if s[0] == '\n' then 1 else 0) + Count(s[1..])
  {
    assert s == [s[0]] + s[1..];
    LinesInSuffix([s[0]], s[1..], |s| - 1);
    assert LinesBefore([s[0]], 1) == LinesBefore([s[0]], 0) + if s[0] == '\n' then 1 else 0;
  }

  lemma {:induction false} BreaksFirst(k: nat)
    ensures Breaks(k + 1) == "\n" + Breaks(k)
  {
    if k > 0 {
      BreaksFirst(k - 1);
    }
  }

  lemma {:induction false} BreaksAre(lines: seq<string>)
    ensures Breaks(|lines|) == Shell.OneEach(lines)
  {
    if lines != [] {
      BreaksAre(lines[1..]);
      BreaksFirst(|lines| - 1);
    }
  }

  lemma {:induction false} SpacesAre(s: string)
    ensures Spaces(|s|) == Shell.Blank(s)
  {
    if s != "" {
      SpacesAre(s[1..]);
      assert Spaces(|s|) == " " + Spaces(|s| - 1);
    }
  }

  /** A line closes a document when what is behind its tabs is the delimiter. */
  lemma {:induction false} ClosingAgrees(line: string, delim: string)
    requires delim != "" && delim[0] != '\t'
    ensures WithoutTabs(line) == delim <==> Shell.Closing(line, delim)
  {
    if line != "" && line[0] == '\t' {
      ClosingAgrees(line[1..], delim);
      ClosingTab(line, delim);
    } else if |line| == |delim| {
      assert line[0..] == line;
    }
  }

  lemma ClosingTab(line: string, delim: string)
    requires line != "" && line[0] == '\t' && delim != "" && delim[0] != '\t'
    ensures Shell.Closing(line, delim) <==> Shell.Closing(line[1..], delim)
  {
    var n := |line| - |delim|;
    if |delim| < |line| {
      assert line[1..][n - 1..] == line[n..];
      assert forall i :: 0 <= i < n - 1 ==> line[1..][i] == line[i + 1];
      assert forall i :: 0 < i < n ==> line[i] == line[1..][i - 1];
    }
    assert line[0..] == line;
  }

  // ----- one item ----------------------------------------------------------------------------------

  /** What the lexer does at an item with `a` before it and `z` behind it. */
  ghost predicate ReadAs(a: string, it: Shell.Item, z: string, pending: seq<string>, keep: bool) {
    var body := a + (Shell.Raw(it) + z);
    |a| < |body| &&
    var p := NextPiece(body, keep, |a|, pending);
    && |a| <= p.kept <= |body| && body[|a|..p.kept] + p.filler == Shell.Shown(it, keep)
    && p.pending == Shell.PendingBehind(it, pending)
    && (p.next == |a| + |Shell.Raw(it)| || (z == "" && p.next >= |body|))
  }

  lemma IsRead(a: string, it: Shell.Item, z: string, pending: seq<string>, keep: bool, p: Piece)
    requires |a| < |a + (Shell.Raw(it) + z)| && p == NextPiece(a + (Shell.Raw(it) + z), keep, |a|, pending)
    requires |a| <= p.kept <= |a + (Shell.Raw(it) + z)| && p.pending == Shell.PendingBehind(it, pending)
    requires (a + (Shell.Raw(it) + z))[|a|..p.kept] + p.filler == Shell.Shown(it, keep)
    requires p.next == |a| + |Shell.Raw(it)| || (z == "" && p.next >= |a + (Shell.Raw(it) + z)|)
    ensures ReadAs(a, it, z, pending, keep)
  {
  }

  lemma OccursSplit(s: string, a: string, b: string, i: nat)
    requires OccursAt(s, a + b, i)
    ensures OccursAt(s, a, i) && OccursAt(s, b, i + |a|)
  {
    var t := s[i..i + |a + b|];
    assert t[..|a|] == a && t[|a|..] == b;
    assert s[i..i + |a|] == t[..|a|] && s[i + |a|..i + |a| + |b|] == t[|a|..];
  }

  lemma OccursBehind(a: string, b: string, z: string)
    ensures OccursAt(a + (b + z), b, |a|) && OccursAt(a + (b + z), z, |a| + |b|)
    ensures |a + (b + z)| == |a| + |b| + |z|
  {
    assert OccursAt(a + (b + z), b + z, |a|);
    OccursSplit(a + (b + z), b, z, |a|);
  }

  lemma CharAt(s: string, pat: string, i: nat, k: nat)
    requires OccursAt(s, pat, i) && k < |pat|
    ensures s[i + k] == pat[k]
  {
    assert s[i..i + |pat|][k] == s[i + k];
  }

  /** The character before and the one at an item's place, and what follows it. */
  lemma Around(a: string, raw: string, z: string)
    requires raw != ""
    ensures var body := a + (raw + z);
            && |a| < |body| && body[|a|] == raw[0] && body[|a|..] == raw + z
            && (a != "" ==> body[|a| - 1] == a[|a| - 1])
  {
  }

  // ----- plain characters and comments -------------------------------------------------------------

  lemma PlainRead(a: string, c: char, z: string, pending: seq<string>, keep: bool)
    requires Shell.Fits(Shell.Plain(c), Shell.LastOf(a), z, pending)
    ensures ReadAs(a, Shell.Plain(c), z, pending, keep)
  {
    var body, n := a + ([c] + z), |a|;
    Around(a, [c], z);
    CommentAgrees(body, n);
    if c == '<' && HereDocument(body, n).Some? {
      MarkerFound(body, n);
    }
    assert c != '<' ==> HereDocument(body, n) == None;
    hide HereDocument, OpensComment, SkipDocuments, Shell.BeginsMarker;
    assert body[n..n + 1] + "" == [c];
  }

  lemma MarkerFound(body: string, i: nat)
    requires i < |body| && HereDocument(body, i).Some?
    ensures Shell.BeginsMarker(body[i..])
  {
    var dash := i + 2 < |body| && body[i + 2] == '-';
    var start := if dash then i + 3 else i + 2;
    var from := BlanksEnd(body, start);
    var m := HereDocument(body, i).value;
    BlanksOnly(body, start);
    var quoted := from < |body| && (body[from] == '\'' || body[from] == '"');
    var first := if quoted then from + 1 else from;
    var last := WordEnd(body, first);
    WordOnly(body, first);
    assert m.end == if quoted then last + 1 else last;
    LettersAgree(body[first]);
    FoundText(body, i, start, from, first, last, m.end);
    FoundMarker(body, i, start, from, first, last, m.end);
  }

  lemma FoundMarker(body: string, i: nat, start: nat, from: nat, first: nat, last: nat, end: nat)
    requires i + 2 <= start <= i + 3 && start <= from <= first <= from + 1 && first < last <= end <= |body|
    requires forall k :: start <= k < from ==> body[k] == ' ' || body[k] == '\t'
    requires Shell.Letter(body[first]) && forall k :: first <= k < last ==> Shell.WordChar(body[k])
    requires first != from ==> body[from] == '\'' || body[from] == '"'
    requires body[i..end] ==
              "<<" + ((if start == i + 3 then "-" else "") + (body[start..from] +
                ((if first == from then "" else [body[from]]) +
                  (body[first..last] + if first == from then "" else [body[from]]))))
    ensures Shell.BeginsMarker(body[i..])
  {
    var it := Shell.HereDoc(start == i + 3, body[start..from], if first == from then "" else [body[from]],
      body[first..last]);
    MarkerWord(body, start, from, first, last);
    hide Shell.IsDelimiter, Shell.Letter, Shell.WordChar;
    assert Shell.IsMarker(it);
    assert Shell.Raw(it) == body[i..end];
    SlicePrefix(body, i, end);
  }

  lemma MarkerWord(body: string, start: nat, from: nat, first: nat, last: nat)
    requires start <= from <= first < last <= |body|
    requires forall k :: start <= k < from ==> body[k] == ' ' || body[k] == '\t'
    requires Shell.Letter(body[first]) && forall k :: first <= k < last ==> Shell.WordChar(body[k])
    ensures Shell.IsDelimiter(body[first..last])
    ensures var t := body[start..from]; forall k :: 0 <= k < |t| ==> t[k] == ' ' || t[k] == '\t'
  {
  }

  lemma FoundText(body: string, i: nat, start: nat, from: nat, first: nat, last: nat, end: nat)
    requires i + 2 <= start <= i + 3 && start <= from <= first <= from + 1 && first <= last <= end <= |body|
    requires body[i] == '<' && body[i + 1] == '<' && (start == i + 3 ==> body[i + 2] == '-')
    requires if first == from then end == last else end == last + 1 && body[last] == body[from]
    ensures body[i..end] ==
              "<<" + ((if start == i + 3 then "-" else "") + (body[start..from] +
                ((if first == from then "" else [body[from]]) +
                  (body[first..last] + if first == from then "" else [body[from]]))))
  {
    Slices(body, first, last, end);
    Slices(body, from, first, end);
    Slices(body, start, from, end);
    Slices(body, i + 2, start, end);
    Slices(body, i, i + 2, end);
    FewChars(body, i, start, from, first, last, end);
  }

  lemma FewChars(body: string, i: nat, start: nat, from: nat, first: nat, last: nat, end: nat)
    requires i + 2 <= start <= i + 3 && start <= from <= first <= from + 1 && first <= last <= end <= |body|
    requires body[i] == '<' && body[i + 1] == '<' && (start == i + 3 ==> body[i + 2] == '-')
    requires if first == from then end == last else end == last + 1 && body[last] == body[from]
    ensures body[i..i + 2] == "<<" && body[i + 2..start] == (if start == i + 3 then "-" else "")
    ensures body[from..first] == (if first == from then "" else [body[from]])
    ensures body[last..end] == (if first == from then "" else [body[from]])
  {
  }

  lemma SlicePrefix(s: string, i: nat, j: nat)
    requires i <= j <= |s|
    ensures s[i..j] <= s[i..]
  {
  }

  lemma Slices(s: string, i: nat, j: nat, k: nat)
    requires i <= j <= k <= |s|
    ensures s[i..k] == s[i..j] + s[j..k]
  {
  }

  lemma {:induction false} BlanksOnly(body: string, i: nat)
    requires i <= |body|
    ensures forall k :: i <= k < BlanksEnd(body, i) ==> body[k] == ' ' || body[k] == '\t'
    decreases |body| - i
  {
    if i < |body| && (body[i] == ' ' || body[i] == '\t') {
      BlanksOnly(body, i + 1);
    }
  }

  lemma {:induction false} WordOnly(body: string, i: nat)
    requires i <= |body|
    ensures forall k :: i <= k < WordEnd(body, i) ==> Shell.WordChar(body[k])
    ensures i < |body| && WordStart(body[i]) ==> i < WordEnd(body, i)
    decreases |body| - i
  {
    if i < |body| && (WordStart(body[i]) || IsDigit(body[i])) {
      WordOnly(body, i + 1);
    }
  }

  lemma {:induction false} LineRun(body: string, i: nat, e: nat)
    requires i <= e <= |body| && (e < |body| ==> body[e] == '\n')
    requires forall k :: i <= k < e ==> body[k] != '\n'
    ensures LineEnd(body, i) == e
    decreases e - i
  {
    if i < e {
      LineRun(body, i + 1, e);
    }
  }

  lemma CommentRead(a: string, text: string, z: string, pending: seq<string>, keep: bool)
    requires Shell.Fits(Shell.Comment(text), Shell.LastOf(a), z, pending)
    ensures ReadAs(a, Shell.Comment(text), z, pending, keep)
  {
    var raw := "#" + text;
    var body, n := a + (raw + z), |a|;
    Around(a, raw, z);
    CommentAgrees(body, n);
    assert forall k :: n <= k < n + |raw| ==> body[k] == raw[k - n];
    assert z != "" ==> body[n + |raw|] == z[0];
    assert forall k :: 0 < k < |raw| ==> raw[k] == text[k - 1] && text[k - 1] in text;
    LineRun(body, n, n + |raw|);
    hide OpensComment, LineEnd, HereDocument, SkipDocuments;
    assert body[n..n] + "" == "";
  }

  // ----- escapes and quotes ------------------------------------------------------------------------

  lemma EscapedRead(a: string, c: char, z: string, pending: seq<string>, keep: bool)
    ensures ReadAs(a, Shell.Escaped(c), z, pending, keep)
  {
    var body, n := a + (['\\', c] + z), |a|;
    Around(a, ['\\', c], z);
    assert body[n + 1] == c;
    hide OpensComment, HereDocument, SkipDocuments;
    NoneKept(body, n);
  }

  lemma BackslashRead(a: string, pending: seq<string>, keep: bool)
    ensures ReadAs(a, Shell.LastBackslash, "", pending, keep)
  {
    var body, n := a + ("\\" + ""), |a|;
    Around(a, "\\", "");
    CommentAgrees(body, n);
    assert HereDocument(body, n) == None;
    hide OpensComment, HereDocument, SkipDocuments;
    assert body[n..n + 1] + "" == "\\";
  }

  lemma {:induction false} NewlinesConcat(a: string, b: string)
    ensures Shell.Newlines(a + b) == Shell.Newlines(a) + Shell.Newlines(b)
  {
    if a == "" {
      assert a + b == b;
    } else {
      HeadAndTail(a, b);
      NewlinesConcat(a[1..], b);
      Assoc(if a[0] == '\n' then "\n" else "", Shell.Newlines(a[1..]), Shell.Newlines(b));
    }
  }

  lemma HeadAndTail(a: string, b: string)
    requires a != ""
    ensures a + b != "" && (a + b)[0] == a[0] && (a + b)[1..] == a[1..] + b
  {
  }

  lemma NoNewline(c: char)
    requires c != '\n'
    ensures Shell.Newlines([c]) == ""
  {
    assert [c][1..] == "";
  }

  /** The newlines of a text are those of what stands in its quotes. */
  lemma QuoteNewlines(c: char, text: string, close: string)
    requires c != '\n' && (close == "" || close == [c])
    ensures Breaks(Count([c] + (text + close))) == Shell.Newlines(text)
  {
    var s := [c] + (text + close);
    NewlinesAre(s);
    NewlinesConcat([c], text + close);
    NewlinesConcat(text, close);
    NoNewline(c);
  }

  lemma SinglePiece(body: string, i: nat, pending: seq<string>, keep: bool, text: string, e: nat)
    requires i < |body| && body[i] == '\'' && SingleEnd(body, i) == e
    requires Breaks(Count(body[i..e + 1])) == Shell.Newlines(text)
    ensures NextPiece(body, keep, i, pending) == Piece(i, "''" + Shell.Newlines(text), e + 1, pending, false)
    ensures body[i..i] + ("''" + Shell.Newlines(text)) == "''" + Shell.Newlines(text)
  {
    hide SingleEnd, Breaks, Count, Shell.Newlines;
    NoneKept(body, i);
  }

  lemma SingleRead(a: string, text: string, z: string, pending: seq<string>, keep: bool)
    requires '\'' !in text
    ensures ReadAs(a, Shell.Single(text), z, pending, keep)
  {
    hide *;
    var raw := "'" + (text + "'");
    var body, n := a + (raw + z), |a|;
    SinglesAre(text, pending, keep);
    Around(a, raw, z);
    SingleEnds(a, text, z);
    QuoteNewlines('\'', text, "'");
    SinglePiece(body, n, pending, keep, text, n + 1 + |text|);
    IsRead(a, Shell.Single(text), z, pending, keep, NextPiece(body, keep, n, pending));
  }

  lemma SinglesAre(text: string, pending: seq<string>, keep: bool)
    ensures var it := Shell.Single(text);
            && Shell.Raw(it) == "'" + (text + "'") && Shell.PendingBehind(it, pending) == pending
            && Shell.Shown(it, keep) == "''" + Shell.Newlines(text)
    ensures var it := Shell.OpenSingle(text);
            && Shell.Raw(it) == "'" + text && Shell.PendingBehind(it, pending) == pending
            && Shell.Shown(it, keep) == "''" + Shell.Newlines(text)
  {
  }

  lemma SingleEnds(a: string, text: string, z: string)
    requires '\'' !in text
    ensures var body, e := a + ("'" + (text + "'") + z), |a| + 1 + |text|;
            e < |body| && SingleEnd(body, |a|) == e && body[|a|..e + 1] == "'" + (text + "'")
  {
    var raw := "'" + (text + "'");
    var body, n, e := a + (raw + z), |a|, |a| + 1 + |text|;
    OccursBehind(a, raw, z);
    WordAt(body, raw, n);
    hide OccursAt;
    OccursSplit(body, "'", text + "'", n);
    OccursSplit(body, text, "'", n + 1);
    NoQuoteIn(body, text, n + 1);
    FindIs(body, "'", n + 1, e);
  }

  lemma NoQuoteIn(body: string, text: string, i: nat)
    requires '\'' !in text && OccursAt(body, text, i)
    ensures forall j: nat :: i <= j < i + |text| ==> !OccursAt(body, "'", j)
  {
    forall j: nat | i <= j < i + |text|
      ensures !OccursAt(body, "'", j)
    {
      CharAt(body, text, i, j - i);
      assert body[j] in text;
      OnlyChar(body, j);
    }
  }

  lemma OnlyChar(body: string, j: nat)
    requires j < |body|
    ensures OccursAt(body, "'", j) <==> body[j] == '\''
  {
    assert body[j..j + 1] == [body[j]];
  }

  lemma OpenSingleRead(a: string, text: string, pending: seq<string>, keep: bool)
    requires '\'' !in text
    ensures ReadAs(a, Shell.OpenSingle(text), "", pending, keep)
  {
    hide *;
    var raw := "'" + text;
    var body, n := a + (raw + ""), |a|;
    SinglesAre(text, pending, keep);
    Around(a, raw, "");
    OpenSingleEnds(a, text);
    QuoteNewlines('\'', text, "");
    SinglePiece(body, n, pending, keep, text, |body| - 1);
    IsRead(a, Shell.OpenSingle(text), "", pending, keep, NextPiece(body, keep, n, pending));
  }

  lemma OpenSingleEnds(a: string, text: string)
    requires '\'' !in text
    ensures var body := a + ("'" + text + "");
            && |body| > |a| && SingleEnd(body, |a|) == |body| - 1 && |body| == |a| + |"'" + text|
            && body[|a|..|body|] == "'" + (text + "")
  {
    var raw := "'" + text;
    var body, n := a + (raw + ""), |a|;
    OccursBehind(a, raw, "");
    WordAt(body, raw, n);
    OccursSplit(body, "'", text, n);
    NoQuoteIn(body, text, n + 1);
    FindFirst(body, "'", n + 1);
    NoFiller(text);
    NoFiller(raw);
  }

  /** What stands between double quotes is passed over whole. */
  lemma {:induction false} InnerRun(body: string, j: nat, inners: seq<Shell.Inner>)
    requires Shell.InnersOk(inners) && OccursAt(body, Shell.InnerText(inners), j)
    ensures QuoteEnd(body, j) == QuoteEnd(body, j + |Shell.InnerText(inners)|)
    decreases |inners|
  {
    if inners != [] {
      var first := match inners[0] case Char(c) => [c] case Backed(c) => ['\\', c];
      OccursSplit(body, first, Shell.InnerText(inners[1..]), j);
      CharAt(body, first, j, 0);
      InnerRun(body, j + |first|, inners[1..]);
    }
  }

  lemma DoublePiece(body: string, i: nat, pending: seq<string>, keep: bool, text: string, e: nat, end: nat)
    requires i < |body| && body[i] == '"' && QuoteEnd(body, i + 1) == e
    requires end == if e < |body| then e + 1 else |body|
    requires Breaks(Count(body[i..end])) == Shell.Newlines(text)
    ensures var p := NextPiece(body, keep, i, pending);
            && i <= p.kept <= |body| && p.next == e + 1 && p.pending == pending
            && body[i..p.kept] + p.filler == if keep then body[i..end] else "\"\"" + Shell.Newlines(text)
  {
    hide QuoteEnd, Breaks, Count, Shell.Newlines;
    NoneKept(body, i);
    NoFiller(body[i..end]);
  }

  lemma DoubleRead(a: string, inners: seq<Shell.Inner>, z: string, pending: seq<string>, keep: bool)
    requires Shell.InnersOk(inners)
    ensures ReadAs(a, Shell.Double(inners), z, pending, keep)
  {
    hide *;
    var text := Shell.InnerText(inners);
    var raw := "\"" + (text + "\"");
    var body, n := a + (raw + z), |a|;
    DoubleIs(inners, pending, keep);
    Around(a, raw, z);
    DoubleEnds(a, inners, z);
    QuoteNewlines('"', text, "\"");
    DoublePiece(body, n, pending, keep, text, n + 1 + |text|, n + 2 + |text|);
    IsRead(a, Shell.Double(inners), z, pending, keep, NextPiece(body, keep, n, pending));
  }

  lemma DoubleIs(inners: seq<Shell.Inner>, pending: seq<string>, keep: bool)
    ensures var it, text := Shell.Double(inners), Shell.InnerText(inners);
            && Shell.Raw(it) == "\"" + (text + "\"") && Shell.PendingBehind(it, pending) == pending
            && Shell.Shown(it, keep) == if keep then Shell.Raw(it) else "\"\"" + Shell.Newlines(text)
  {
  }

  lemma DoubleEnds(a: string, inners: seq<Shell.Inner>, z: string)
    requires Shell.InnersOk(inners)
    ensures var text := Shell.InnerText(inners);
            var body, e := a + ("\"" + (text + "\"") + z), |a| + 1 + |text|;
            e < |body| && QuoteEnd(body, |a| + 1) == e && body[|a|..e + 1] == "\"" + (text + "\"")
  {
    hide Shell.InnersOk;
    var text := Shell.InnerText(inners);
    var raw := "\"" + (text + "\"");
    var body, n, e := a + (raw + z), |a|, |a| + 1 + |text|;
    OccursBehind(a, raw, z);
    WordAt(body, raw, n);
    hide OccursAt, Shell.InnerText;
    OccursSplit(body, "\"", text + "\"", n);
    OccursSplit(body, text, "\"", n + 1);
    EveryChar(body, "\"", e);
    InnerRun(body, n + 1, inners);
  }

  lemma OpenDoubleRead(a: string, inners: seq<Shell.Inner>, back: bool, pending: seq<string>, keep: bool)
    requires Shell.InnersOk(inners)
    ensures ReadAs(a, Shell.OpenDouble(inners, back), "", pending, keep)
  {
    hide *;
    var text, tail := Shell.InnerText(inners), if back then "\\" else "";
    var raw := "\"" + (text + tail);
    var body, n := a + (raw + ""), |a|;
    OpenDoubleIs(inners, back, pending, keep);
    Around(a, raw, "");
    OccursBehind(a, raw, "");
    OpenDoubleEnds(body, n, inners, tail);
    OpenNewlines(text, tail);
    DoublePiece(body, n, pending, keep, text, QuoteEnd(body, n + 1), |body|);
    NoFiller(raw);
    IsRead(a, Shell.OpenDouble(inners, back), "", pending, keep, NextPiece(body, keep, n, pending));
  }

  lemma OpenDoubleIs(inners: seq<Shell.Inner>, back: bool, pending: seq<string>, keep: bool)
    ensures var it, text := Shell.OpenDouble(inners, back), Shell.InnerText(inners);
            && Shell.Raw(it) == "\"" + (text + if back then "\\" else "") && Shell.PendingBehind(it, pending) == pending
            && Shell.Shown(it, keep) == if keep then Shell.Raw(it) else "\"\"" + Shell.Newlines(text)
  {
  }

  lemma OpenDoubleEnds(body: string, n: nat, inners: seq<Shell.Inner>, tail: string)
    requires Shell.InnersOk(inners) && (tail == "" || tail == "\\")
    requires OccursAt(body, "\"" + (Shell.InnerText(inners) + tail), n)
    requires |body| == n + |"\"" + (Shell.InnerText(inners) + tail)|
    ensures QuoteEnd(body, n + 1) >= |body| && body[n..|body|] == "\"" + (Shell.InnerText(inners) + tail)
  {
    var text := Shell.InnerText(inners);
    WordAt(body, "\"" + (text + tail), n);
    hide OccursAt, Shell.InnerText, Shell.InnersOk;
    OccursSplit(body, "\"", text + tail, n);
    OccursSplit(body, text, tail, n + 1);
    InnerRun(body, n + 1, inners);
    EveryChar(body, tail, n + 1 + |text|);
  }

  lemma OpenNewlines(text: string, tail: string)
    requires tail == "" || tail == "\\"
    ensures Breaks(Count("\"" + (text + tail))) == Shell.Newlines(text)
  {
    var s := "\"" + (text + tail);
    NewlinesAre(s);
    NewlinesConcat("\"", text + tail);
    NewlinesConcat(text, tail);
    NoNewline('"');
    NoNewline('\\');
  }

  // ----- here-documents ----------------------------------------------------------------------------

  lemma {:induction false} BlanksRun(body: string, i: nat, e: nat)
    requires i <= e <= |body| && (e < |body| ==> body[e] != ' ' && body[e] != '\t')
    requires forall k :: i <= k < e ==> body[k] == ' ' || body[k] == '\t'
    ensures BlanksEnd(body, i) == e
    decreases e - i
  {
    if i < e {
      BlanksRun(body, i + 1, e);
    }
  }

  lemma {:induction false} WordRun(body: string, i: nat, e: nat)
    requires i <= e <= |body| && (e < |body| ==> !Shell.WordChar(body[e]))
    requires forall k :: i <= k < e ==> Shell.WordChar(body[k])
    ensures WordEnd(body, i) == e
    decreases e - i
  {
    if i < e {
      WordRun(body, i + 1, e);
    }
  }

  /** The parts of a marker in the body, each in its place. */
  ghost predicate MarkerAt(body: string, i: nat, it: Shell.Item, from: nat, first: nat, last: nat, end: nat) {
    && it.HereDoc? && i + 2 <= |body| && body[i] == '<' && body[i + 1] == '<'
    && (var start := if it.dash then i + 3 else i + 2;
        && start <= from <= first <= last <= end <= |body|
        && (it.dash ==> body[i + 2] == '-')
        && (forall k :: start <= k < from ==> body[k] == ' ' || body[k] == '\t'))
    && first == from + |it.quote| && end == last + |it.quote|
    && (it.quote != "" ==> body[from] == it.quote[0] && last < end && body[last] == it.quote[0])
    && body[first..last] == it.word && first < last
  }

  lemma MarkerStands(a: string, it: Shell.Item, z: string) returns (from: nat, first: nat, last: nat, end: nat)
    requires it.HereDoc? && Shell.IsMarker(it)
    ensures MarkerAt(a + (Shell.Raw(it) + z), |a|, it, from, first, last, end)
    ensures end == |a| + |Shell.Raw(it)| && |a + (Shell.Raw(it) + z)| == end + |z|
  {
    hide *;
    var raw, body, n := Shell.Raw(it), a + (Shell.Raw(it) + z), |a|;
    var d := if it.dash then "-" else "";
    OccursBehind(a, raw, z);
    MarkerText(it, d);
    Standing(body, n, d, it.blanks, it.quote, it.word);
    from := n + 2 + |d| + |it.blanks|;
    first := from + |it.quote|;
    last := first + |it.word|;
    end := last + |it.quote|;
    PartsOf(body, n, it, d, from, first, last, end);
  }

  lemma MarkerText(it: Shell.Item, d: string)
    requires Shell.IsMarker(it) && d == if it.dash then "-" else ""
    ensures Shell.Raw(it) == "<<" + (d + (it.blanks + (it.quote + (it.word + it.quote))))
    ensures |Shell.Raw(it)| == 2 + |d| + |it.blanks| + |it.quote| + |it.word| + |it.quote|
    ensures it.quote != "" ==> |it.quote| == 1
  {
  }

  lemma PartsOf(body: string, n: nat, it: Shell.Item, d: string, from: nat, first: nat, last: nat, end: nat)
    requires Shell.IsMarker(it) && d == if it.dash then "-" else ""
    requires from == n + 2 + |d| + |it.blanks| && first == from + |it.quote| && last == first + |it.word|
    requires end == last + |it.quote| <= |body| && body[n] == '<' && body[n + 1] == '<' && body[first..last] == it.word
    requires d != "" ==> body[n + 2] == d[0]
    requires it.quote != "" ==> body[from] == it.quote[0] && body[last] == it.quote[0]
    requires forall k :: n + 2 + |d| <= k < from ==> body[k] == it.blanks[k - (n + 2 + |d|)]
    ensures MarkerAt(body, n, it, from, first, last, end)
  {
  }

  /** The parts of a text stand one behind the other. */
  lemma PartsStand(body: string, n: nat, d: string, blanks: string, quote: string, word: string)
    requires OccursAt(body, "<<" + (d + (blanks + (quote + (word + quote)))), n)
    ensures var start := n + 2 + |d|;
            var from := start + |blanks|;
            var first := from + |quote|;
            && OccursAt(body, "<<", n) && OccursAt(body, d, n + 2) && OccursAt(body, blanks, start)
            && OccursAt(body, quote, from) && OccursAt(body, word, first) && OccursAt(body, quote, first + |word|)
  {
    hide *;
    var start := n + 2 + |d|;
    var from := start + |blanks|;
    OccursSplit(body, "<<", d + (blanks + (quote + (word + quote))), n);
    OccursSplit(body, d, blanks + (quote + (word + quote)), n + 2);
    OccursSplit(body, blanks, quote + (word + quote), start);
    OccursSplit(body, quote, word + quote, from);
    OccursSplit(body, word, quote, from + |quote|);
  }

  lemma Standing(body: string, n: nat, d: string, blanks: string, quote: string, word: string)
    requires OccursAt(body, "<<" + (d + (blanks + (quote + (word + quote)))), n)
    ensures var start := n + 2 + |d|;
            var from := start + |blanks|;
            var first := from + |quote|;
            var last := first + |word|;
            && last + |quote| <= |body| && body[n] == '<' && body[n + 1] == '<' && body[first..last] == word
            && (d != "" ==> body[n + 2] == d[0])
            && (quote != "" ==> body[from] == quote[0] && body[last] == quote[0])
            && forall k :: start <= k < from ==> body[k] == blanks[k - start]
  {
    hide *;
    PartsStand(body, n, d, blanks, quote, word);
    TwoChars(body, n);
    HeadAt(body, d, n + 2);
    EveryChar(body, blanks, n + 2 + |d|);
    HeadAt(body, quote, n + 2 + |d| + |blanks|);
    WordAt(body, word, n + 2 + |d| + |blanks| + |quote|);
    HeadAt(body, quote, n + 2 + |d| + |blanks| + |quote| + |word|);
  }

  lemma TwoChars(s: string, i: nat)
    requires OccursAt(s, "<<", i)
    ensures i + 2 <= |s| && s[i] == '<' && s[i + 1] == '<'
  {
    EveryChar(s, "<<", i);
  }

  lemma HeadAt(s: string, pat: string, i: nat)
    requires OccursAt(s, pat, i)
    ensures i + |pat| <= |s| && (pat != "" ==> s[i] == pat[0])
  {
    EveryChar(s, pat, i);
  }

  lemma WordAt(s: string, pat: string, i: nat)
    requires OccursAt(s, pat, i)
    ensures i + |pat| <= |s| && s[i..i + |pat|] == pat
  {
  }

  lemma EveryChar(s: string, pat: string, i: nat)
    requires OccursAt(s, pat, i)
    ensures i + |pat| <= |s| && forall k :: i <= k < i + |pat| ==> s[k] == pat[k - i]
  {
    forall k | i <= k < i + |pat|
      ensures s[k] == pat[k - i]
    {
      CharAt(s, pat, i, k - i);
    }
  }

  lemma MarkerIsRead(body: string, i: nat, it: Shell.Item, from: nat, first: nat, last: nat, end: nat)
    requires Shell.IsMarker(it) && i < |body| && MarkerAt(body, i, it, from, first, last, end)
    requires it.quote == "" ==> end == |body| || !Shell.WordChar(body[end])
    ensures HereDocument(body, i) == Some(Marker(it.word, end))
  {
    var start := if it.dash then i + 3 else i + 2;
    assert body[first] == it.word[0];
    LettersAgree(body[first]);
    assert forall k :: first <= k < last ==> body[k] == it.word[k - first];
    assert !it.dash && start < |body| ==> body[start] != '-' by { StartsWithout(body, it, start, from, first); }
    assert from < |body| && body[from] != ' ' && body[from] != '\t';
    BlanksRun(body, start, from);
    WordRun(body, first, last);
    hide BlanksEnd, WordEnd;
  }

  /** Behind `<<` there is no dash but the marker's own. */
  lemma StartsWithout(body: string, it: Shell.Item, start: nat, from: nat, first: nat)
    requires Shell.IsMarker(it) && start <= from <= first < |body| && body[first] == it.word[0]
    requires forall k :: start <= k < from ==> body[k] == ' ' || body[k] == '\t'
    requires first == from + |it.quote| && (it.quote != "" ==> body[from] == it.quote[0])
    ensures body[start] != '-'
  {
  }

  lemma MarkerComes(a: string, it: Shell.Item, z: string)
    requires it.HereDoc? && Shell.IsMarker(it) && (it.quote == "" ==> z == "" || !Shell.WordChar(z[0]))
    ensures var body := a + (Shell.Raw(it) + z);
            && |a| < |body| && body[|a|] == '<' && !OpensComment(body, |a|)
            && HereDocument(body, |a|) == Some(Marker(it.word, |a| + |Shell.Raw(it)|))
  {
    hide *;
    var body, n := a + (Shell.Raw(it) + z), |a|;
    var from, first, last, end := MarkerStands(a, it, z);
    BeginsSo(body, n, it, from, first, last, end);
    EndOf(a, Shell.Raw(it), z);
    MarkerIsRead(body, n, it, from, first, last, end);
  }

  lemma BeginsSo(body: string, i: nat, it: Shell.Item, from: nat, first: nat, last: nat, end: nat)
    requires MarkerAt(body, i, it, from, first, last, end)
    ensures i < |body| && body[i] == '<' && !OpensComment(body, i)
  {
  }

  lemma EndOf(a: string, raw: string, z: string)
    ensures |a + (raw + z)| == |a| + |raw| + |z| && (z != "" ==> (a + (raw + z))[|a| + |raw|] == z[0])
  {
  }

  lemma MarkerRead(a: string, it: Shell.Item, z: string, pending: seq<string>, keep: bool)
    requires it.HereDoc? && Shell.Fits(it, Shell.LastOf(a), z, pending)
    ensures ReadAs(a, it, z, pending, keep)
  {
    hide *;
    var raw, body, n := Shell.Raw(it), a + (Shell.Raw(it) + z), |a|;
    MarkerFits(it, Shell.LastOf(a), z, pending);
    MarkerComes(a, it, z);
    MarkerPiece(body, n, pending, keep, Marker(it.word, n + |raw|));
    SpacesAre(raw);
    MarkerIs(it, pending, keep);
    EndOf(a, raw, z);
    IsRead(a, it, z, pending, keep, NextPiece(body, keep, n, pending));
  }

  lemma MarkerFits(it: Shell.Item, before: Option<char>, z: string, pending: seq<string>)
    requires it.HereDoc? && Shell.Fits(it, before, z, pending)
    ensures Shell.IsMarker(it) && (it.quote == "" ==> z == "" || !Shell.WordChar(z[0]))
  {
  }

  lemma MarkerPiece(body: string, i: nat, pending: seq<string>, keep: bool, m: Marker)
    requires i < |body| && body[i] == '<' && !OpensComment(body, i) && HereDocument(body, i) == Some(m)
    ensures var p := NextPiece(body, keep, i, pending);
            && p.kept == i && p.next == m.end && p.pending == pending + [m.delim] && i < m.end
            && body[i..p.kept] + p.filler == Spaces(m.end - i)
  {
    hide OpensComment, SkipDocuments, Spaces;
    NoneKept(body, i);
  }

  lemma MarkerIs(it: Shell.Item, pending: seq<string>, keep: bool)
    requires it.HereDoc?
    ensures Shell.PendingBehind(it, pending) == pending + [it.word]
    ensures Shell.Shown(it, keep) == Shell.Blank(Shell.Raw(it))
  {
  }

  /** A line of a here-document region: the first pending delimiter goes if the line closes it. */
  lemma SkipOne(body: string, s: Skip, line: string, pending: seq<string>)
    requires pending != [] && Shell.IsDelimiter(pending[0]) && s.i < |body|
    requires s.i + |line| <= |body| && body[s.i..s.i + |line|] == line && Shell.NoBreak(line)
    requires s.i + |line| < |body| ==> body[s.i + |line|] == '\n'
    ensures var left := if Shell.Closing(line, pending[0]) then pending[1..] else pending;
            SkipDocuments(body, s, pending) == SkipDocuments(body, SkipLine(body, s), left)
    ensures SkipLine(body, s).i == Min(s.i + |line| + 1, |body|) && SkipLine(body, s).lines == s.lines + 1
  {
    assert forall k :: s.i <= k < s.i + |line| ==> body[k] == line[k - s.i] && line[k - s.i] in line;
    LineRun(body, s.i, s.i + |line|);
    ClosingAgrees(line, pending[0]);
    hide LineEnd, WithoutTabs;
  }

  /** The lines of the documents pending are skipped, one newline each. */
  lemma {:induction false} ClosingLines(body: string, s: Skip, lines: seq<string>, pending: seq<string>)
    requires s.i <= |body| && OccursAt(body, Shell.LinesText(lines), s.i) && Shell.NoBreaks(lines)
    requires Delimiters(pending) && Shell.Closes(pending, lines)
    ensures SkipDocuments(body, s, pending).i == s.i + |Shell.LinesText(lines)|
    ensures SkipDocuments(body, s, pending).lines == s.lines + |lines|
    decreases |lines|
  {
    if lines != [] {
      var left := if Shell.Closing(lines[0], pending[0]) then pending[1..] else pending;
      FirstLine(body, s, lines, pending);
      ClosingLines(body, SkipLine(body, s), lines[1..], left);
    }
  }

  lemma FirstLine(body: string, s: Skip, lines: seq<string>, pending: seq<string>)
    requires s.i <= |body| && OccursAt(body, Shell.LinesText(lines), s.i) && Shell.NoBreaks(lines)
    requires Delimiters(pending) && pending != [] && lines != []
    ensures s.i < |body| && SkipLine(body, s).lines == s.lines + 1 && Shell.NoBreaks(lines[1..])
    ensures SkipLine(body, s).i == s.i + |lines[0]| + 1
    ensures |Shell.LinesText(lines)| == |lines[0]| + 1 + |Shell.LinesText(lines[1..])|
    ensures OccursAt(body, Shell.LinesText(lines[1..]), SkipLine(body, s).i)
    ensures var left := if Shell.Closing(lines[0], pending[0]) then pending[1..] else pending;
            Delimiters(left) && SkipDocuments(body, s, pending) == SkipDocuments(body, SkipLine(body, s), left)
  {
    OccursSplit(body, lines[0] + "\n", Shell.LinesText(lines[1..]), s.i);
    OccursSplit(body, lines[0], "\n", s.i);
    CharAt(body, "\n", s.i + |lines[0]|, 0);
    assert Shell.NoBreak(lines[0]);
    hide SkipDocuments, Shell.Closing, Shell.LinesText;
    SkipOne(body, s, lines[0], pending);
  }

  /** A document whose delimiter never comes takes all there is. */
  lemma {:induction false} UnclosedLines(body: string, s: Skip, lines: seq<string>, last: string, pending: seq<string>)
    requires s.i <= |body| && OccursAt(body, Shell.LinesText(lines) + last, s.i) && Shell.NoBreaks(lines)
    requires s.i + |Shell.LinesText(lines) + last| == |body| && Shell.NoBreak(last)
    requires Delimiters(pending) && Shell.StillPending(pending, lines) != []
    ensures SkipDocuments(body, s, pending).i == |body|
    ensures SkipDocuments(body, s, pending).lines == s.lines + |lines| + if last == "" then 0 else 1
    decreases |lines|
  {
    assert lines == [] ==> Shell.LinesText(lines) == "";
    hide SkipDocuments, OccursAt, Shell.LinesText, Delimiters, Shell.NoBreak, Shell.NoBreaks, Shell.Closing;
    OccursSplit(body, Shell.LinesText(lines), last, s.i);
    if lines != [] {
      var left := if Shell.Closing(lines[0], pending[0]) then pending[1..] else pending;
      FirstLine(body, s, lines, pending);
      JoinOccurs(body, Shell.LinesText(lines[1..]), last, SkipLine(body, s).i);
      UnclosedLines(body, SkipLine(body, s), lines[1..], last, left);
    } else {
      LastLine(body, s, last, pending);
    }
  }

  lemma LastLine(body: string, s: Skip, last: string, pending: seq<string>)
    requires s.i <= |body| && OccursAt(body, last, s.i) && s.i + |last| == |body| && Shell.NoBreak(last)
    requires Delimiters(pending) && pending != []
    ensures SkipDocuments(body, s, pending).i == |body|
    ensures SkipDocuments(body, s, pending).lines == s.lines + if last == "" then 0 else 1
  {
    hide SkipDocuments, Shell.Closing;
    if last != "" {
      SkipOne(body, s, last, pending);
      SkipsNothing(body, SkipLine(body, s), if Shell.Closing(last, pending[0]) then pending[1..] else pending);
    } else {
      SkipsNothing(body, s, pending);
    }
  }

  lemma JoinOccurs(s: string, a: string, b: string, i: nat)
    requires OccursAt(s, a, i) && OccursAt(s, b, i + |a|)
    ensures OccursAt(s, a + b, i)
  {
    assert s[i..i + |a + b|] == s[i..i + |a|] + s[i + |a|..i + |a| + |b|];
  }

  lemma {:induction false} SkipsNothing(body: string, s: Skip, pending: seq<string>)
    requires s.i == |body|
    ensures SkipDocuments(body, s, pending) == s
    decreases |pending|
  {
    if pending != [] {
      SkipsNothing(body, s, pending[1..]);
    }
  }

  lemma NewLinePiece(body: string, i: nat, pending: seq<string>, keep: bool, lines: nat, next: nat)
    requires i < |body| && body[i] == '\n'
    requires var s := SkipDocuments(body, Skip(i + 1, 0, false), pending); s.i == next && s.lines == lines
    ensures var p := NextPiece(body, keep, i, pending);
            && p.kept == i + 1 && p.filler == Breaks(lines) && p.next == next && p.pending == []
            && body[i..p.kept] + p.filler == "\n" + Breaks(lines)
  {
    hide SkipDocuments, Breaks;
    OneKept(body, i);
  }

  lemma NewLineRead(a: string, lines: seq<string>, z: string, pending: seq<string>, keep: bool)
    requires Shell.NoBreaks(lines) && Shell.Closes(pending, lines) && Delimiters(pending)
    ensures ReadAs(a, Shell.NewLine(lines), z, pending, keep)
  {
    hide Shell.NoBreaks, Shell.Closes, Delimiters, NextPiece, SkipDocuments, OccursAt, Breaks, Shell.LinesText,
        Shell.OneEach;
    var text := Shell.LinesText(lines);
    var raw := "\n" + text;
    var body, n := a + (raw + z), |a|;
    Around(a, raw, z);
    OccursBehind(a, raw, z);
    OccursSplit(body, "\n", text, n);
    ClosingLines(body, Skip(n + 1, 0, false), lines, pending);
    NewLinePiece(body, n, pending, keep, |lines|, n + |raw|);
    BreaksAre(lines);
  }

  lemma OpenLinesRead(a: string, lines: seq<string>, last: string, pending: seq<string>, keep: bool)
    requires Shell.NoBreaks(lines) && Shell.NoBreak(last) && Delimiters(pending)
    requires Shell.StillPending(pending, lines) != []
    ensures ReadAs(a, Shell.OpenLines(lines, last), "", pending, keep)
  {
    hide Shell.NoBreaks, Shell.NoBreak, Shell.StillPending, Delimiters, NextPiece, SkipDocuments, OccursAt, Breaks,
        Shell.LinesText, Shell.OneEach;
    var text := Shell.LinesText(lines) + last;
    var raw := "\n" + text;
    var body, n := a + (raw + ""), |a|;
    Around(a, raw, "");
    OccursBehind(a, raw, "");
    OccursSplit(body, "\n", text, n);
    UnclosedLines(body, Skip(n + 1, 0, false), lines, last, pending);
    NewLinePiece(body, n, pending, keep, |lines| + if last == "" then 0 else 1, |body|);
    BreaksAre(lines);
    MoreBreaks(|lines|);
    Regroup(Breaks(|lines|), last);
  }

  lemma MoreBreaks(k: nat)
    ensures Breaks(k + 1) == Breaks(k) + "\n"
  {
  }

  lemma Regroup(breaks: string, last: string)
    ensures breaks + (if last == "" then "" else "\n") == if last == "" then breaks else breaks + "\n"
  {
    assert breaks + "" == breaks;
  }

  // ----- the whole text ----------------------------------------------------------------------------

  lemma ItemRead(a: string, it: Shell.Item, z: string, pending: seq<string>, keep: bool)
    requires Shell.Fits(it, Shell.LastOf(a), z, pending) && Delimiters(pending)
    ensures ReadAs(a, it, z, pending, keep) && Delimiters(Shell.PendingBehind(it, pending))
  {
    hide ReadAs, Shell.StillPending, Shell.Closes, Shell.BeginsMarker, Shell.InnersOk, Shell.NoBreaks, Shell.NoBreak;
    match it
    case Plain(c) => PlainRead(a, c, z, pending, keep);
    case Escaped(c) => EscapedRead(a, c, z, pending, keep);
    case Single(text) => SingleRead(a, text, z, pending, keep);
    case Double(inners) => DoubleRead(a, inners, z, pending, keep);
    case Comment(text) => CommentRead(a, text, z, pending, keep);
    case HereDoc(_, _, _, _) => MarkerRead(a, it, z, pending, keep);
    case NewLine(lines) => NewLineRead(a, lines, z, pending, keep);
    case OpenSingle(text) => OpenSingleRead(a, text, pending, keep);
    case OpenDouble(inners, back) => OpenDoubleRead(a, inners, back, pending, keep);
    case LastBackslash => BackslashRead(a, pending, keep);
    case OpenLines(lines, last) => OpenLinesRead(a, lines, last, pending, keep);
  }

  /** From the place an item stands at, the lexer puts out what the items from there on show. */
  lemma {:induction false} WalkItems(a: string, items: seq<Shell.Item>, keep: bool, s: Cursor)
    requires s.i == |a| && Shell.Reads(items, Shell.LastOf(a), s.pending) && Delimiters(s.pending)
    ensures Walk(a + Shell.RawAll(items), keep, s).out == s.out + Shell.ShownAll(items, keep)
    decreases |items|
  {
    hide *;
    if items == [] {
      NothingLeft(a, items, keep, s);
    } else {
      var it, more := items[0], items[1..];
      Opened(items, Shell.LastOf(a), s.pending, keep);
      var z := Shell.RawAll(more);
      ItemRead(a, it, z, s.pending, keep);
      var body := a + (Shell.Raw(it) + z);
      var t := ItemStep(a, it, z, keep, s);
      if t.i == |a| + |Shell.Raw(it)| {
        LastIs(a, Shell.Raw(it));
        WalkItems(a + Shell.Raw(it), more, keep, t);
        Assoc(a, Shell.Raw(it), z);
      } else {
        Nothing(more, keep);
        WalkDone(body, keep, t);
        NoFiller(t.out);
      }
      Assoc(s.out, Shell.Shown(it, keep), Shell.ShownAll(more, keep));
    }
  }

  lemma NothingLeft(a: string, items: seq<Shell.Item>, keep: bool, s: Cursor)
    requires items == [] && s.i == |a|
    ensures Walk(a + Shell.RawAll(items), keep, s).out == s.out + Shell.ShownAll(items, keep)
  {
    NoFiller(a);
    NoFiller(s.out);
  }

  lemma Opened(items: seq<Shell.Item>, before: Option<char>, pending: seq<string>, keep: bool)
    requires items != [] && Shell.Reads(items, before, pending)
    ensures Shell.Fits(items[0], before, Shell.RawAll(items[1..]), pending)
    ensures Shell.Reads(items[1..], Shell.LastOf(Shell.Raw(items[0])), Shell.PendingBehind(items[0], pending))
    ensures Shell.RawAll(items) == Shell.Raw(items[0]) + Shell.RawAll(items[1..])
    ensures Shell.ShownAll(items, keep) == Shell.Shown(items[0], keep) + Shell.ShownAll(items[1..], keep)
  {
  }

  lemma ItemStep(a: string, it: Shell.Item, z: string, keep: bool, s: Cursor) returns (t: Cursor)
    requires s.i == |a| && ReadAs(a, it, z, s.pending, keep)
    ensures var body := a + (Shell.Raw(it) + z);
            && Walk(body, keep, s) == Walk(body, keep, t)
            && t.out == s.out + Shell.Shown(it, keep) && t.pending == Shell.PendingBehind(it, s.pending)
            && (t.i == |a| + |Shell.Raw(it)| || (z == "" && t.i >= |body|))
  {
    var body := a + (Shell.Raw(it) + z);
    hide Walk, Step, NextPiece, Shell.Raw, Shell.Shown, Shell.PendingBehind;
    WalkOne(body, keep, s);
    t := Step(body, keep, s);
  }

  lemma LastIs(a: string, raw: string)
    requires raw != ""
    ensures Shell.LastOf(a + raw) == Shell.LastOf(raw) && |a + raw| == |a| + |raw|
  {
  }

  /** Items without text are no items. */
  lemma Nothing(items: seq<Shell.Item>, keep: bool)
    requires Shell.RawAll(items) == ""
    ensures items == [] && Shell.ShownAll(items, keep) == ""
  {
  }

  /** The code of a text made up of items is what the items show. */
  lemma CodeOfItems(items: seq<Shell.Item>, keep: bool)
    requires Shell.Reads(items, None, [])
    ensures Code(Shell.RawAll(items), keep) == Shell.ShownAll(items, keep)
  {
    hide Walk, Shell.Reads, Shell.RawAll, Shell.ShownAll;
    WalkItems("", items, keep, START);
    var body, shown := Shell.RawAll(items), Shell.ShownAll(items, keep);
    assert "" + body == body && "" + shown == shown;
  }

  /** Every body there is reads as items, and its code is what they show. */
  lemma EveryBody(body: string) returns (items: seq<Shell.Item>)
    ensures Shell.Reads(items, None, []) && Shell.RawAll(items) == body
    ensures forall keep :: Code(body, keep) == Shell.ShownAll(items, keep)
  {
    hide *;
    items := Shell.EveryText(body, None, []);
    forall keep
      ensures Code(body, keep) == Shell.ShownAll(items, keep)
    {
      CodeOfItems(items, keep);
    }
  }

  /** A comment is blanked to the end of its line, whatever stands in it, and the text goes on behind it. */
  lemma CommentBlanked(front: seq<Shell.Item>, text: string, z: string, keep: bool)
    requires Shell.Leads(front, None, [], "#" + text + ("\n" + z)) && Shell.PendingAfter(front, []) == []
    requires Shell.OpensComment(Shell.LastBehind(front, None)) && Shell.NoBreak(text)
    ensures Code(Shell.RawAll(front) + ("#" + text + ("\n" + z)), keep) ==
              Shell.ShownAll(front, keep) + Code("\n" + z, keep)
  {
    hide *;
    var more := Shell.EveryText(z, Some('\n'), []);
    var back := [Shell.NewLine([])] + more;
    NewLineLeads(more, Shell.LastOf("#" + text));
    NewLineLeads(more, None);
    CodeOfItems(back, keep);
    var it := Shell.Comment(text);
    CommentLeads(it, back, z, Shell.LastBehind(front, None), keep);
    Shell.Behind(front, [it] + back, None, []);
    Shell.ShownBehind(front, [it] + back, keep);
    CodeOfItems(front + ([it] + back), keep);
  }

  lemma NewLineLeads(more: seq<Shell.Item>, before: Option<char>)
    requires Shell.Reads(more, Some('\n'), [])
    ensures Shell.Reads([Shell.NewLine([])] + more, before, [])
    ensures Shell.RawAll([Shell.NewLine([])] + more) == "\n" + Shell.RawAll(more)
  {
    var it := Shell.NewLine([]);
    assert Shell.Raw(it) == "\n";
    Shell.Longer(it, more, before, []);
  }

  lemma CommentLeads(it: Shell.Item, back: seq<Shell.Item>, z: string, before: Option<char>, keep: bool)
    requires it.Comment? && Shell.NoBreak(it.text) && Shell.OpensComment(before)
    requires Shell.RawAll(back) == "\n" + z && Shell.Reads(back, Shell.LastOf("#" + it.text), [])
    ensures Shell.Reads([it] + back, before, [])
    ensures Shell.RawAll([it] + back) == "#" + it.text + ("\n" + z)
    ensures Shell.ShownAll([it] + back, keep) == Shell.ShownAll(back, keep)
  {
    Shell.Longer(it, back, before, []);
    hide Shell.Reads, Shell.RawAll;
    assert ([it] + back)[1..] == back;
    var shown := Shell.ShownAll(back, keep);
    assert "" + shown == shown;
  }
}
