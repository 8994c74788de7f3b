/** The shell lexer of scripts/check_task_shells.py: `code_only` blanks comments, quoted strings and
    here-documents, and `lint` reports line numbers read off what is left. */
module CodeOnly {
  import opened Text

  // ----- lines -----------------------------------------------------------------------------------

  /** How many of the first `i` characters of `s` end a line. */
  function LinesBefore(s: string, i: nat): nat {
    if i == 0 then 0 else LinesBefore(s, i - 1) + if i <= |s| && s[i - 1] == '\n' then 1 else 0
  }

  /** `s.count("\n")`. */
  function Count(s: string): nat {
    LinesBefore(s, |s|)
  }

  /** `"\n" * k`. */
  function Breaks(k: nat): (s: string)
    ensures |s| == k && forall i :: 0 <= i < k ==> s[i] == '\n'
  {
    if k == 0 then "" else Breaks(k - 1) + "\n"
  }

  lemma {:induction false} LinesInPrefix(s: string, t: string, i: nat)
    requires i <= |s|
    ensures LinesBefore(s + t, i) == LinesBefore(s, i)
  {
    if i > 0 {
      LinesInPrefix(s, t, i - 1);
    }
  }

  lemma {:induction false} LinesInSuffix(s: string, t: string, k: nat)
    requires k <= |t|
    ensures LinesBefore(s + t, |s| + k) == Count(s) + LinesBefore(t, k)
  {
    if k == 0 {
      LinesInPrefix(s, t, |s|);
    } else {
      LinesInSuffix(s, t, k - 1);
      assert (s + t)[|s| + k - 1] == t[k - 1];
    }
  }

  lemma {:induction false} LinesInSlice(s: string, i: nat, j: nat, k: nat)
    requires i <= j <= |s| && k <= j - i
    ensures LinesBefore(s, i) + LinesBefore(s[i..j], k) == LinesBefore(s, i + k)
  {
    if k > 0 {
      LinesInSlice(s, i, j, k - 1);
      assert s[i..j][k - 1] == s[i + k - 1];
    }
  }

  lemma {:induction false} LinesPastEnd(s: string, i: nat)
    requires i >= |s|
    ensures LinesBefore(s, i) == Count(s)
  {
    if i > |s| {
      LinesPastEnd(s, i - 1);
    }
  }

  lemma {:induction false} NoLinesBetween(s: string, i: nat, j: nat)
    requires i <= j <= |s| && forall k :: i <= k < j ==> s[k] != '\n'
    ensures LinesBefore(s, j) == LinesBefore(s, i)
  {
    if i < j {
      NoLinesBetween(s, i, j - 1);
    }
  }

  lemma {:induction false} LinesOrdered(s: string, i: nat, j: nat)
    requires i <= j
    ensures LinesBefore(s, i) <= LinesBefore(s, j)
  {
    if i < j {
      LinesOrdered(s, i, j - 1);
    }
  }

  lemma {:induction false} CountBreaks(k: nat)
    ensures Count(Breaks(k)) == k
  {
    if k > 0 {
      CountBreaks(k - 1);
      LinesInPrefix(Breaks(k - 1), "\n", k - 1);
    }
  }

  // ----- the lexer's pieces ------------------------------------------------------------------------

  /** What an output character may be when it is not taken from the body. */
  predicate Filler(c: char) {
    c == ' ' || c == '\'' || c == '"' || c == '\n'
  }

  predicate AllFiller(s: string) {
    forall i :: 0 <= i < |s| ==> Filler(s[i])
  }

  function Min(a: nat, b: nat): nat {
    if a < b then a else b
  }

  /** The end of the line `i` is on, its newline left out. */
  function LineEnd(body: string, i: nat): (e: nat)
    requires i <= |body|
    ensures i <= e <= |body|
    ensures forall k :: i <= k < e ==> body[k] != '\n'
    ensures e < |body| ==> body[e] == '\n'
    decreases |body| - i
  {
    if i == |body| || body[i] == '\n' then i else LineEnd(body, i + 1)
  }

  /** `line.lstrip("\t")`. */
  function WithoutTabs(line: string): string {
    if line != "" && line[0] == '\t' then WithoutTabs(line[1..]) else line
  }

  /** Skipping here-documents: the cursor, the newlines put out for the skipped lines, and whether the last
      of these lines had no newline of its own. */
  datatype Skip = Skip(i: nat, lines: nat, open: bool)

  function SkipLine(body: string, s: Skip): Skip
    requires s.i < |body|
  {
    var e := LineEnd(body, s.i);
    Skip(Min(e + 1, |body|), s.lines + 1, s.open || e == |body|)
  }

  predicate Delimits(body: string, i: nat, delim: string)
    requires i <= |body|
  {
    WithoutTabs(body[i..LineEnd(body, i)]) == delim
  }

  /** Lines up to and with the delimiter's, or to the end of the body. */
  function SkipDocument(body: string, s: Skip, delim: string): (r: Skip)
    requires s.i <= |body|
    ensures s.i <= r.i <= |body|
    decreases |body| - s.i
  {
    if s.i == |body| then s
    else if Delimits(body, s.i, delim) then SkipLine(body, s)
    else SkipDocument(body, SkipLine(body, s), delim)
  }

  function SkipDocuments(body: string, s: Skip, pending: seq<string>): (r: Skip)
    requires s.i <= |body|
    ensures s.i <= r.i <= |body|
    decreases |pending|
  {
    if pending == [] then s else SkipDocuments(body, SkipDocument(body, s, pending[0]), pending[1..])
  }

  /** Where the double-quoted string opened before `j` ends: at its closing quote, or past the body. */
  function QuoteEnd(body: string, j: nat): (e: nat)
    ensures e >= j
    decreases |body| - j
  {
    if j >= |body| || body[j] == '"' then j
    else QuoteEnd(body, if body[j] == '\\' then j + 2 else j + 1)
  }

  /** The closing quote of a single-quoted string, or the body's last character. */
  function SingleEnd(body: string, i: nat): (e: nat)
    requires i < |body|
    ensures i <= e < |body|
  {
    match Find(body, "'", i + 1)
    case None => |body| - 1
    case Some(e) => e
  }

  predicate WordStart(c: char) {
    'A' <= c <= 'Z' || 'a' <= c <= 'z' || c == '_'
  }

  function BlanksEnd(body: string, i: nat): (e: nat)
    requires i <= |body|
    ensures i <= e <= |body| && forall k :: i <= k < e ==> body[k] != '\n'
    decreases |body| - i
  {
    if i < |body| && (body[i] == ' ' || body[i] == '\t') then BlanksEnd(body, i + 1) else i
  }

  function WordEnd(body: string, i: nat): (e: nat)
    requires i <= |body|
    ensures i <= e <= |body| && forall k :: i <= k < e ==> body[k] != '\n'
    decreases |body| - i
  {
    if i < |body| && (WordStart(body[i]) || IsDigit(body[i])) then WordEnd(body, i + 1) else i
  }

  datatype Marker = Marker(delim: string, end: nat)

  /** The here-document marker at `i`: `<<`, perhaps `-`, blanks, and a word, perhaps in quotes. */
  function HereDocument(body: string, i: nat): (m: Option<Marker>)
    requires i < |body|
    ensures m.Some? ==> i < m.value.end <= |body| && forall k :: i <= k < m.value.end ==> body[k] != '\n'
  {
    if i + 2 <= |body| && body[i] == '<' && body[i + 1] == '<' then
      var dash := if i + 2 < |body| && body[i + 2] == '-' then i + 3 else i + 2;
      var from := BlanksEnd(body, dash);
      if from < |body| && (body[from] == '\'' || body[from] == '"') then
        if from + 1 < |body| && WordStart(body[from + 1]) then
          var end := WordEnd(body, from + 1);
          if end < |body| && body[end] == body[from] then Some(Marker(body[from + 1..end], end + 1)) else None
        else None
      else if from < |body| && WordStart(body[from]) then
        var end := WordEnd(body, from);
        Some(Marker(body[from..end], end))
      else None
    else None
  }

  predicate OpensComment(body: string, i: nat)
    requires i < |body|
  {
    body[i] == '#' && (i == 0 || body[i - 1] in " \t\n;&|()")
  }

  /** What is put out from the cursor on: the body's own characters up to `kept`, then `filler`. */
  datatype Piece = Piece(kept: nat, filler: string, next: nat, pending: seq<string>, open: bool)

  function NextPiece(body: string, keep: bool, i: nat, pending: seq<string>): Piece
    requires i < |body|
  {
    var c := body[i];
    if c == '\n' then
      var s := SkipDocuments(body, Skip(i + 1, 0, false), pending);
      Piece(i + 1, Breaks(s.lines), s.i, [], s.open)
    else if c == '\\' && i + 1 < |body| then
      Piece(i, if body[i + 1] != '\n' then "  " else " \n", i + 2, pending, false)
    else if c == '\'' then
      var e := SingleEnd(body, i);
      Piece(i, "''" + Breaks(Count(body[i..e + 1])), e + 1, pending, false)
    else if c == '"' then
      var j := QuoteEnd(body, i + 1);
      var end := Min(j + 1, |body|);
      if keep then Piece(end, "", j + 1, pending, false)
      else Piece(i, "\"\"" + Breaks(Count(body[i..end])), j + 1, pending, false)
    else if OpensComment(body, i) then
      Piece(i, "", LineEnd(body, i), pending, false)
    else
      match HereDocument(body, i)
      case Some(m) => Piece(i, Spaces(m.end - i), m.end, pending + [m.delim], false)
      case None => Piece(i + 1, "", i + 1, pending, false)
  }

  function Spaces(k: nat): (s: string)
    ensures |s| == k && forall i :: 0 <= i < k ==> s[i] == ' '
  {
    seq(k, _ => ' ')
  }

  /** A piece whose newlines are those of what it stands for, one more when a here-document is left open. */
  ghost predicate Balanced(body: string, i: nat, p: Piece) {
    && i <= p.kept <= |body| && p.kept <= p.next && i < p.next
    && AllFiller(p.filler)
    && LinesBefore(body, p.kept) + Count(p.filler) == LinesBefore(body, p.next) + (if p.open then 1 else 0)
    && (p.open ==> p.next == |body| && body[|body| - 1] != '\n')
  }

  lemma {:induction false} DocumentBalanced(body: string, s: Skip, delim: string, start: nat)
    requires s.i <= |body| && SkipLevel(body, s, start)
    ensures SkipLevel(body, SkipDocument(body, s, delim), start)
    decreases |body| - s.i
  {
    if s.i < |body| {
      LineBalanced(body, s, start);
      if !Delimits(body, s.i, delim) {
        DocumentBalanced(body, SkipLine(body, s), delim, start);
      }
    }
  }

  /** The newlines put out since `start` are those read, one more once the body ends inside a line. */
  ghost predicate SkipLevel(body: string, s: Skip, start: nat) {
    && LinesBefore(body, start) + s.lines == LinesBefore(body, s.i) + (if s.open then 1 else 0)
    && (s.open ==> s.i == |body| && |body| > 0 && body[|body| - 1] != '\n')
  }

  lemma LineBalanced(body: string, s: Skip, start: nat)
    requires s.i < |body| && SkipLevel(body, s, start)
    ensures SkipLevel(body, SkipLine(body, s), start)
  {
    NoLinesBetween(body, s.i, LineEnd(body, s.i));
  }

  lemma {:induction false} DocumentsBalanced(body: string, s: Skip, pending: seq<string>, start: nat)
    requires s.i <= |body| && SkipLevel(body, s, start)
    ensures SkipLevel(body, SkipDocuments(body, s, pending), start)
    decreases |pending|
  {
    if pending != [] {
      DocumentBalanced(body, s, pending[0], start);
      DocumentsBalanced(body, SkipDocument(body, s, pending[0]), pending[1..], start);
    }
  }

  lemma QuotedBalanced(body: string, i: nat, end: nat, quotes: string)
    requires i <= end <= |body| && quotes in {"''", "\"\""}
    ensures AllFiller(quotes + Breaks(Count(body[i..end])))
    ensures LinesBefore(body, i) + Count(quotes + Breaks(Count(body[i..end]))) == LinesBefore(body, end)
  {
    var k := Count(body[i..end]);
    CountBreaks(k);
    LinesInSuffix(quotes, Breaks(k), k);
    LinesInSlice(body, i, end, end - i);
    assert LinesBefore(quotes, 2) == LinesBefore(quotes, 1) == 0;
    forall j | 0 <= j < 2 + k
      ensures Filler((quotes + Breaks(k))[j])
    {
      assert j >= 2 ==> (quotes + Breaks(k))[j] == Breaks(k)[j - 2];
    }
  }

  lemma NewlineBalanced(body: string, i: nat, pending: seq<string>)
    requires i < |body| && body[i] == '\n'
    ensures var s := SkipDocuments(body, Skip(i + 1, 0, false), pending);
            Balanced(body, i, Piece(i + 1, Breaks(s.lines), s.i, [], s.open))
  {
    hide SkipDocuments;
    var s := Skip(i + 1, 0, false);
    DocumentsBalanced(body, s, pending, i + 1);
    CountBreaks(SkipDocuments(body, s, pending).lines);
  }

  lemma EscapeBalanced(body: string, i: nat, pending: seq<string>)
    requires i + 1 < |body| && body[i] == '\\'
    ensures Balanced(body, i, Piece(i, if body[i + 1] != '\n' then "  " else " \n", i + 2, pending, false))
  {
    assert LinesBefore(body, i + 2) == LinesBefore(body, i + 1) + if body[i + 1] == '\n' then 1 else 0;
    assert LinesBefore("  ", 2) == LinesBefore("  ", 1) == 0;
    assert LinesBefore(" \n", 2) == 1 + LinesBefore(" \n", 1) == 1;
  }

  lemma SingleBalanced(body: string, i: nat, pending: seq<string>)
    requires i < |body|
    ensures var e := SingleEnd(body, i);
            Balanced(body, i, Piece(i, "''" + Breaks(Count(body[i..e + 1])), e + 1, pending, false))
  {
    hide SingleEnd, Count, AllFiller;
    QuotedBalanced(body, i, SingleEnd(body, i) + 1, "''");
  }

  lemma DoubleBalanced(body: string, i: nat, j: nat, pending: seq<string>)
    requires i < |body| && i < j
    ensures var end := Min(j + 1, |body|);
            && Balanced(body, i, Piece(end, "", j + 1, pending, false))
            && Balanced(body, i, Piece(i, "\"\"" + Breaks(Count(body[i..end])), j + 1, pending, false))
  {
    hide AllFiller;
    var end := Min(j + 1, |body|);
    QuotedBalanced(body, i, end, "\"\"");
    SameLines(body, end, j + 1);
    NothingFills();
  }

  lemma NothingFills()
    ensures AllFiller("") && Count("") == 0
  {
  }

  lemma SameLines(body: string, end: nat, i: nat)
    requires end == Min(i, |body|)
    ensures LinesBefore(body, end) == LinesBefore(body, i)
  {
    LinesPastEnd(body, if i < |body| then |body| else i);
  }

  lemma MarkerBalanced(body: string, i: nat, end: nat, pending: seq<string>)
    requires i < end <= |body| && forall k :: i <= k < end ==> body[k] != '\n'
    ensures Balanced(body, i, Piece(i, Spaces(end - i), end, pending, false))
  {
    NoLinesBetween(body, i, end);
    NoLinesBetween(Spaces(end - i), 0, end - i);
  }

  lemma CommentBalanced(body: string, i: nat, pending: seq<string>)
    requires i < |body| && OpensComment(body, i)
    ensures Balanced(body, i, Piece(i, "", LineEnd(body, i), pending, false))
  {
    NoLinesBetween(body, i, LineEnd(body, i));
  }

  lemma PieceBalanced(body: string, keep: bool, i: nat, pending: seq<string>)
    requires i < |body|
    ensures Balanced(body, i, NextPiece(body, keep, i, pending))
  {
    hide Balanced, SkipDocuments, SingleEnd, QuoteEnd, HereDocument, OpensComment, LineEnd, Count, Spaces, Breaks, Min;
    var c := body[i];
    if c == '\n' {
      NewlineBalanced(body, i, pending);
    } else if c == '\\' && i + 1 < |body| {
      EscapeBalanced(body, i, pending);
    } else if c == '\'' {
      SingleBalanced(body, i, pending);
    } else if c == '"' {
      DoubleBalanced(body, i, QuoteEnd(body, i + 1), pending);
    } else if OpensComment(body, i) {
      CommentBalanced(body, i, pending);
    } else if HereDocument(body, i).Some? {
      var m := HereDocument(body, i).value;
      MarkerBalanced(body, i, m.end, pending + [m.delim]);
    } else {
      PlainBalanced(body, i, pending);
    }
  }

  lemma PlainBalanced(body: string, i: nat, pending: seq<string>)
    requires i < |body|
    ensures Balanced(body, i, Piece(i + 1, "", i + 1, pending, false))
  {
  }

  // ----- the whole lexer ---------------------------------------------------------------------------

  /** Where the lexer stands, what it has put out, and where each character put out comes from. */
  datatype Cursor = Cursor(i: nat, out: string, from: seq<Option<nat>>, pending: seq<string>, open: bool)

  function Froms(i: nat, j: nat): seq<Option<nat>>
    requires i <= j
  {
    seq(j - i, k requires 0 <= k < j - i => Some(i + k))
  }

  function Nowhere(k: nat): seq<Option<nat>> {
    seq(k, _ => None)
  }

  function Put(body: string, s: Cursor, p: Piece): Cursor
    requires s.i <= p.kept <= |body|
  {
    var from := s.from + Froms(s.i, p.kept) + Nowhere(|p.filler|);
    Cursor(p.next, s.out + body[s.i..p.kept] + p.filler, from, p.pending, s.open || p.open)
  }

  function Step(body: string, keep: bool, s: Cursor): (r: Cursor)
    requires s.i < |body|
    ensures r.i > s.i
  {
    PieceBalanced(body, keep, s.i, s.pending);
    Put(body, s, NextPiece(body, keep, s.i, s.pending))
  }

  function Walk(body: string, keep: bool, s: Cursor): (r: Cursor)
    ensures r.i >= |body|
    decreases |body| - s.i
  {
    if s.i >= |body| then s else Walk(body, keep, Step(body, keep, s))
  }

  const START := Cursor(0, "", [], [], false)

  function Lexed(body: string, keep: bool): Cursor {
    Walk(body, keep, START)
  }

  /** `code_only`. */
  function Code(body: string, keep: bool): string {
    Lexed(body, keep).out
  }

  /** Where in the body character `p` of the output was taken from. */
  function Origin(body: string, keep: bool, p: nat): Option<nat> {
    if p < |Lexed(body, keep).from| then Lexed(body, keep).from[p] else None
  }

  /** Character `p` put out stands on the line of the body it was taken from; one not taken from the body
      is a blank, a quote or a newline. */
  ghost predicate PlacedAt(body: string, s: Cursor, p: nat)
    requires p < |s.out| && |s.from| == |s.out|
  {
    match s.from[p]
    case None => Filler(s.out[p])
    case Some(q) => q < |body| && q < s.i && s.out[p] == body[q] && LinesBefore(s.out, p) == LinesBefore(body, q)
  }

  ghost predicate Placed(body: string, s: Cursor) {
    |s.from| == |s.out| && forall p :: 0 <= p < |s.out| ==> PlacedAt(body, s, p)
  }

  /** Characters are kept in order, each at most once. */
  ghost predicate InOrder(from: seq<Option<nat>>) {
    forall p, r :: 0 <= p < r < |from| && from[p].Some? && from[r].Some? ==> from[p].value < from[r].value
  }

  /** As many newlines put out as read; one more once the body has ended inside a here-document. */
  ghost predicate Level(body: string, s: Cursor) {
    && Count(s.out) == LinesBefore(body, s.i) + (if s.open then 1 else 0)
    && (s.open ==> s.i == |body| && |body| > 0 && body[|body| - 1] != '\n')
  }

  lemma PutLevel(body: string, s: Cursor, p: Piece)
    requires s.i < |body| && Level(body, s) && Balanced(body, s.i, p)
    ensures Level(body, Put(body, s, p))
  {
    var text := body[s.i..p.kept];
    PutAll(s.out, text, p.filler);
    LinesInSlice(body, s.i, p.kept, |text|);
  }

  lemma PutAll(out: string, text: string, filler: string)
    ensures Count(out + text + filler) == Count(out) + LinesBefore(text, |text|) + Count(filler)
  {
    LinesInSuffix(out, text, |text|);
    LinesInSuffix(out + text, filler, |filler|);
  }

  lemma PutPlaced(body: string, s: Cursor, p: Piece)
    requires s.i < |body| && Level(body, s) && Placed(body, s) && Balanced(body, s.i, p)
    ensures Placed(body, Put(body, s, p))
  {
    var text := body[s.i..p.kept];
    var r := Put(body, s, p);
    forall k | 0 <= k < |r.out|
      ensures PlacedAt(body, r, k)
    {
      if k < |s.out| {
        PutOld(body, s, p, k);
      } else if k < |s.out| + |text| {
        PutKept(body, s, p, k - |s.out|);
      } else {
        assert r.out[k] == p.filler[k - |s.out| - |text|];
      }
    }
  }

  lemma PutOld(body: string, s: Cursor, p: Piece, k: nat)
    requires s.i < |body| && Placed(body, s) && Balanced(body, s.i, p) && k < |s.out|
    ensures PlacedAt(body, Put(body, s, p), k)
  {
    assert PlacedAt(body, s, k);
    Assoc(s.out, body[s.i..p.kept], p.filler);
    LinesInPrefix(s.out, body[s.i..p.kept] + p.filler, k);
  }

  lemma PutKept(body: string, s: Cursor, p: Piece, k: nat)
    requires s.i < |body| && |s.from| == |s.out| && Level(body, s) && Balanced(body, s.i, p) && k < p.kept - s.i
    ensures PlacedAt(body, Put(body, s, p), |s.out| + k)
  {
    var text := body[s.i..p.kept];
    PutLines(s.out, text, p.filler, k);
    LinesInSlice(body, s.i, p.kept, k);
  }

  lemma PutLines(out: string, text: string, filler: string, k: nat)
    requires k <= |text|
    ensures LinesBefore(out + text + filler, |out| + k) == Count(out) + LinesBefore(text, k)
  {
    LinesInPrefix(out + text, filler, |out| + k);
    LinesInSuffix(out, text, k);
  }

  ghost predicate Below(from: seq<Option<nat>>, i: nat) {
    forall p :: 0 <= p < |from| && from[p].Some? ==> from[p].value < i
  }

  lemma PutInOrder(body: string, s: Cursor, p: Piece)
    requires s.i < |body| && InOrder(s.from) && Below(s.from, s.i) && Balanced(body, s.i, p)
    ensures InOrder(Put(body, s, p).from) && Below(Put(body, s, p).from, Put(body, s, p).i)
  {
  }

  ghost predicate Sound(body: string, s: Cursor) {
    Level(body, s) && Placed(body, s) && InOrder(s.from) && Below(s.from, s.i)
  }

  lemma StepSound(body: string, keep: bool, s: Cursor)
    requires s.i < |body| && Sound(body, s)
    ensures Sound(body, Step(body, keep, s))
  {
    hide *;
    PieceBalanced(body, keep, s.i, s.pending);
    StepIsPut(body, keep, s);
    SoundParts(body, s);
    PutLevel(body, s, NextPiece(body, keep, s.i, s.pending));
    PutPlaced(body, s, NextPiece(body, keep, s.i, s.pending));
    PutInOrder(body, s, NextPiece(body, keep, s.i, s.pending));
    SoundParts(body, Step(body, keep, s));
  }

  lemma StepIsPut(body: string, keep: bool, s: Cursor)
    requires s.i < |body|
    ensures Balanced(body, s.i, NextPiece(body, keep, s.i, s.pending))
    ensures Step(body, keep, s) == Put(body, s, NextPiece(body, keep, s.i, s.pending))
  {
    PieceBalanced(body, keep, s.i, s.pending);
  }

  lemma WalkOne(body: string, keep: bool, s: Cursor)
    requires s.i < |body|
    ensures Walk(body, keep, s) == Walk(body, keep, Step(body, keep, s))
    ensures var p := NextPiece(body, keep, s.i, s.pending);
            && s.i <= p.kept <= |body| && s.i < p.next
            && Step(body, keep, s).i == p.next && Step(body, keep, s).pending == p.pending
            && Step(body, keep, s).out == s.out + (body[s.i..p.kept] + p.filler)
  {
    StepIsPut(body, keep, s);
    var p := NextPiece(body, keep, s.i, s.pending);
    Assoc(s.out, body[s.i..p.kept], p.filler);
  }

  lemma SoundParts(body: string, s: Cursor)
    ensures Sound(body, s) <==> Level(body, s) && Placed(body, s) && InOrder(s.from) && Below(s.from, s.i)
  {
  }

  lemma {:induction false} WalkSound(body: string, keep: bool, s: Cursor)
    requires Sound(body, s)
    ensures Sound(body, Walk(body, keep, s))
    decreases |body| - s.i
  {
    hide Sound, Step;
    if s.i < |body| {
      StepSound(body, keep, s);
      WalkSound(body, keep, Step(body, keep, s));
    }
  }

  // ----- what lint relies on -----------------------------------------------------------------------

  /** Line structure is kept: every character kept stands on its own line, in order; newlines put out are
      newlines read, one more exactly when the body's last line belongs to a here-document and has no
      newline of its own. */
  lemma LinesKept(body: string, keep: bool)
    ensures var s := Lexed(body, keep);
            && Placed(body, s) && InOrder(s.from)
            && Count(Code(body, keep)) == Count(body) + (if s.open then 1 else 0)
            && (s.open ==> body != "" && body[|body| - 1] != '\n')
  {
    var s := Lexed(body, keep);
    WalkSound(body, keep, START);
    LinesPastEnd(body, s.i);
  }

  /** The one newline more: the last line belongs to a here-document and has no newline. */
  lemma LastLineAdded()
    ensures var body := "<<E\nx"; Lexed(body, false).open && Count(Code(body, false)) == Count(body) + 1
  {
    hide Count, Step, LinesBefore, Placed, InOrder;
    var body := "<<E\nx";
    var next := Step(body, false, START);
    StepIsPut(body, false, START);
    assert WordEnd(body, 2) == 3;
    assert body[2..3] == "E";
    assert NextPiece(body, false, 0, []) == Piece(0, Spaces(3), 3, ["E"], false);
    StepIsPut(body, false, next);
    LinesKept(body, false);
    LastLineSkipped(body);
    assert NextPiece(body, false, 3, ["E"]).next == 5;
  }

  lemma LastLineSkipped(body: string)
    requires body == "<<E\nx"
    ensures SkipDocuments(body, Skip(4, 0, false), ["E"]) == Skip(5, 1, true)
  {
    assert LineEnd(body, 4) == 5;
    assert body[4..5] == "x";
    assert !Delimits(body, 4, "E");
    assert SkipDocument(body, Skip(4, 0, false), "E") == Skip(5, 1, true);
  }

  /** A match reported at `p` whose tell-tale character `r` is code: the line reported is that character's
      line in the body, less the newlines the match has before it. */
  lemma LineReported(body: string, keep: bool, p: nat, r: nat)
    requires p <= r < |Code(body, keep)| && !Filler(Code(body, keep)[r])
    ensures var q := Origin(body, keep, r);
            q.Some? && q.value < |body| && body[q.value] == Code(body, keep)[r] &&
            LinesBefore(Code(body, keep), p) + Count(Code(body, keep)[p..r]) == LinesBefore(body, q.value)
  {
    LinesKept(body, keep);
    assert PlacedAt(body, Lexed(body, keep), r);
    LinesInSlice(Code(body, keep), p, r, r - p);
  }

  /** The pattern `(?:^|[\s;&|(!])\[\[\s` matches at `p`; the brackets themselves stand at `at`. */
  predicate DoubleBracket(code: string, p: nat, at: nat) {
    && at + 2 < |code| && code[at] == '[' && code[at + 1] == '[' && White(code[at + 2])
    && ((p == 0 && at == 0) || (at == p + 1 && (White(code[p]) || code[p] in ";&|(!")))
  }

  /** The line `lint` gives a `[[` is the line it stands on exactly when the `[[` does not open a line: a
      newline before it is part of the match, and the report is one line early. */
  lemma DoubleBracketLine(body: string, p: nat, at: nat)
    requires DoubleBracket(Code(body, false), p, at)
    ensures var code, q := Code(body, false), Origin(body, false, at);
            && q.Some? && q.value < |body| && body[q.value] == '['
            && (LinesBefore(code, p) == LinesBefore(body, q.value) <==> p == at || code[p] != '\n')
            && (p < at && code[p] == '\n' ==> LinesBefore(code, p) + 1 == LinesBefore(body, q.value))
  {
    LineReported(body, false, p, at);
    var code := Code(body, false);
    assert p < at ==> LinesBefore(code[p..at], 1) == LinesBefore(code[p..at], 0) + if code[p] == '\n' then 1 else 0;
  }

  /** Text with no escape, quote, comment or here-document in it. */
  predicate PlainText(body: string) {
    forall i :: 0 <= i < |body| ==> body[i] !in {'\\', '\'', '"', '#', '<'}
  }

  lemma {:induction false} PlainWalk(body: string, keep: bool, s: Cursor)
    requires PlainText(body) && s.i <= |body| && s.out == body[..s.i] && s.pending == []
    ensures Walk(body, keep, s).out == body
    decreases |body| - s.i
  {
    hide Step;
    if s.i < |body| {
      WalkOne(body, keep, s);
      assert NextPiece(body, keep, s.i, []) == Piece(s.i + 1, "", s.i + 1, [], false);
      assert body[..s.i] + (body[s.i..s.i + 1] + "") == body[..s.i + 1];
      PlainWalk(body, keep, Step(body, keep, s));
    }
  }

  /** Plain text is kept as it is. So a `[[` that opens the second line is reported on the first. */
  lemma DoubleBracketOneEarly()
    ensures forall body, keep | PlainText(body) :: Code(body, keep) == body
    ensures var body := "\n[[ x";
            && DoubleBracket(Code(body, false), 0, 1)
            && LinesBefore(Code(body, false), 0) == 0 && LinesBefore(body, 1) == 1
  {
    hide Walk, LinesBefore;
    forall body, keep | PlainText(body)
      ensures Code(body, keep) == body
    {
      PlainWalk(body, keep, START);
    }
    LinesOfBreak("\n[[ x");
  }

  lemma LinesOfBreak(s: string)
    requires s != "" && s[0] == '\n'
    ensures LinesBefore(s, 0) == 0 && LinesBefore(s, 1) == 1
  {
  }

  // ----- the two readings --------------------------------------------------------------------------

  /** Where the plain reading stands the other stands too, having kept all the plain one kept. */
  ghost predicate Alongside(plain: Cursor, kept: Cursor) {
    && plain.i == kept.i && plain.pending == kept.pending && plain.open == kept.open
    && Kept(plain.from) <= Kept(kept.from)
  }

  function Kept(from: seq<Option<nat>>): set<nat> {
    set p | 0 <= p < |from| && from[p].Some? :: from[p].value
  }

  lemma KeptPut(from: seq<Option<nat>>, more: seq<Option<nat>>, k: nat)
    ensures Kept(from + more + Nowhere(k)) == Kept(from) + Kept(more)
  {
    var all := from + more + Nowhere(k);
    forall q | q in Kept(from)
      ensures q in Kept(all)
    {
      var p :| 0 <= p < |from| && from[p] == Some(q);
      assert all[p] == Some(q);
    }
    forall q | q in Kept(more)
      ensures q in Kept(all)
    {
      var p :| 0 <= p < |more| && more[p] == Some(q);
      assert all[|from| + p] == Some(q);
    }
  }

  /** The plain reading puts out no more of the body than the other. */
  lemma PiecesAlike(body: string, i: nat, pending: seq<string>)
    requires i < |body|
    ensures var p, k := NextPiece(body, false, i, pending), NextPiece(body, true, i, pending);
            p.next == k.next && p.pending == k.pending && p.open == k.open && (p.kept == k.kept || p.kept == i)
  {
  }

  lemma KeptNothing(i: nat)
    ensures Kept(Froms(i, i)) == {}
  {
  }

  lemma StepAlongside(body: string, plain: Cursor, kept: Cursor)
    requires plain.i < |body| && Alongside(plain, kept)
    ensures Alongside(Step(body, false, plain), Step(body, true, kept))
  {
    hide NextPiece, Step, Balanced, Kept, Froms, Nowhere;
    var p, k := NextPiece(body, false, plain.i, plain.pending), NextPiece(body, true, kept.i, kept.pending);
    StepIsPut(body, false, plain);
    StepIsPut(body, true, kept);
    PiecesAlike(body, plain.i, plain.pending);
    InRange(body, plain.i, p);
    InRange(body, kept.i, k);
    KeptPut(plain.from, Froms(plain.i, p.kept), |p.filler|);
    KeptPut(kept.from, Froms(kept.i, k.kept), |k.filler|);
    KeptNothing(plain.i);
  }

  lemma InRange(body: string, i: nat, p: Piece)
    requires Balanced(body, i, p)
    ensures i <= p.kept <= |body|
  {
  }

  lemma {:induction false} WalkAlongside(body: string, plain: Cursor, kept: Cursor)
    requires Alongside(plain, kept)
    ensures Alongside(Walk(body, false, plain), Walk(body, true, kept))
    decreases |body| - plain.i
  {
    hide Step;
    if plain.i < |body| {
      StepAlongside(body, plain, kept);
      WalkAlongside(body, Step(body, false, plain), Step(body, true, kept));
    }
  }

  ghost predicate AlsoKept(body: string, p: nat, r: nat) {
    && p < |Code(body, false)| && r < |Code(body, true)|
    && Origin(body, true, r) == Origin(body, false, p) && Code(body, true)[r] == Code(body, false)[p]
    && LinesBefore(Code(body, true), r) == LinesBefore(Code(body, false), p)
  }

  /** The two readings have the same lines, and what the plain one keeps the other keeps on the same line. */
  lemma VariantsAgree(body: string, p: nat)
    ensures Count(Code(body, false)) == Count(Code(body, true))
    ensures p < |Code(body, false)| && Origin(body, false, p).Some? ==> (exists r :: AlsoKept(body, p, r))
  {
    var plain, kept := Lexed(body, false), Lexed(body, true);
    WalkAlongside(body, START, START);
    LinesKept(body, false);
    LinesKept(body, true);
    if p < |plain.out| && plain.from[p].Some? {
      assert plain.from[p].value in Kept(plain.from);
      var r :| 0 <= r < |kept.from| && kept.from[r] == plain.from[p];
      assert PlacedAt(body, plain, p) && PlacedAt(body, kept, r);
      assert AlsoKept(body, p, r);
    }
  }

  // ----- the loop ----------------------------------------------------------------------------------

  /** The here-document loops: pending delimiters taken one after another, a newline put out a line. */
  method SkipPending(body: string, start: nat, heredocs: seq<string>) returns (i: nat, out: string)
    requires start <= |body|
    ensures var s := SkipDocuments(body, Skip(start, 0, false), heredocs); i == s.i && out == Breaks(s.lines)
  {
    var pending := heredocs;
    i, out := start, "";
    ghost var s := Skip(start, 0, false);
    while pending != []
      invariant i == s.i <= |body| && out == Breaks(s.lines)
      invariant SkipDocuments(body, s, pending) == SkipDocuments(body, Skip(start, 0, false), heredocs)
    {
      var delim := pending[0];
      pending := pending[1..];
      ghost var before := s;
      while i < |body|
        invariant i == s.i <= |body| && out == Breaks(s.lines)
        invariant SkipDocument(body, s, delim) == SkipDocument(body, before, delim)
        decreases |body| - i
      {
        hide SkipDocuments;
        var end := LineEnd(body, i);
        var line := body[i..end];
        i := Min(end + 1, |body|);
        out := out + "\n";
        s := SkipLine(body, s);
        if WithoutTabs(line) == delim {
          break;
        }
      }
      s := SkipDocument(body, before, delim);
    }
  }

  /** Past a double-quoted string: a backslash takes the next character with it. */
  method SkipQuoted(body: string, i: nat) returns (j: nat)
    ensures j == QuoteEnd(body, i)
  {
    j := i;
    while j < |body| && body[j] != '"'
      invariant QuoteEnd(body, j) == QuoteEnd(body, i)
      decreases |body| - j
    {
      j := j + if body[j] == '\\' then 2 else 1;
    }
  }

  lemma WalkDone(body: string, keep: bool, s: Cursor)
    requires s.i >= |body|
    ensures Walk(body, keep, s) == s
  {
  }

  /** One turn of the loop: what is put out, and the cursor and pending here-documents after it. */
  method ReadPiece(body: string, keepDoubleQuoted: bool, from: nat, pending: seq<string>)
    returns (add: string, i: nat, heredocs: seq<string>)
    requires from < |body|
    ensures var p := NextPiece(body, keepDoubleQuoted, from, pending);
            && from <= p.kept <= |body| && i == p.next && heredocs == p.pending
            && add == body[from..p.kept] + p.filler
  {
    PieceInRange(body, keepDoubleQuoted, from, pending);
    hide Count, LinesBefore, Breaks, Find, SingleEnd, LineEnd, QuoteEnd, HereDocument, SkipDocuments, OpensComment,
        Balanced;
    var n, c := |body|, body[from];
    i, heredocs := from, pending;
    NoneKept(body, from);
    OneKept(body, from);
    if c == '\n' {
      var blank;
      i, blank := SkipPending(body, i + 1, heredocs);
      add := [c] + blank;
      heredocs := [];
    } else if c == '\\' && i + 1 < n {
      add := if body[i + 1] != '\n' then "  " else " \n";
      i := i + 2;
    } else if c == '\'' {
      var end := SingleEnd(body, i);
      add := "''" + Breaks(Count(body[i..end + 1]));
      i := end + 1;
    } else if c == '"' {
      var j := SkipQuoted(body, i + 1);
      var end := Min(j + 1, n);
      add := if keepDoubleQuoted then body[i..end] else "\"\"" + Breaks(Count(body[i..end]));
      NoFiller(body[i..end]);
      i := j + 1;
    } else if OpensComment(body, i) {
      add := "";
      i := LineEnd(body, i);
    } else {
      match HereDocument(body, i)
      case Some(m) =>
        heredocs := heredocs + [m.delim];
        add := Spaces(m.end - i);
        i := m.end;
      case None =>
        add := [c];
        NoFiller(add);
        i := i + 1;
    }
  }

  lemma NoneKept(body: string, i: nat)
    requires i < |body|
    ensures forall filler: string :: body[i..i] + filler == filler
  {
    assert body[i..i] == "";
    forall filler: string
      ensures body[i..i] + filler == filler
    {
      assert "" + filler == filler;
    }
  }

  lemma OneKept(body: string, i: nat)
    requires i < |body|
    ensures body[i..i + 1] == [body[i]]
  {
  }

  lemma NoFiller(s: string)
    ensures s + "" == s
  {
  }

  lemma PieceInRange(body: string, keep: bool, i: nat, pending: seq<string>)
    requires i < |body|
    ensures var p := NextPiece(body, keep, i, pending); i <= p.kept <= |body| && i < p.next
  {
    PieceBalanced(body, keep, i, pending);
  }

  /** `code_only` itself. */
  method CodeOnly(body: string, keepDoubleQuoted: bool) returns (out: string)
    ensures out == Code(body, keepDoubleQuoted)
    ensures Count(out) == Count(body) + (if Lexed(body, keepDoubleQuoted).open then 1 else 0)
  {
    hide Walk, Step, Count, NextPiece, Placed, InOrder;
    var i, n, heredocs: seq<string> := 0, |body|, [];
    out := "";
    ghost var s := START;
    while i < n
      invariant s.i == i && s.out == out && s.pending == heredocs
      invariant Walk(body, keepDoubleQuoted, s) == Lexed(body, keepDoubleQuoted)
      decreases n - i
    {
      WalkOne(body, keepDoubleQuoted, s);
      s := Step(body, keepDoubleQuoted, s);
      var add;
      add, i, heredocs := ReadPiece(body, keepDoubleQuoted, i, heredocs);
      out := out + add;
    }
    WalkDone(body, keepDoubleQuoted, s);
    LinesKept(body, keepDoubleQuoted);
  }
}
