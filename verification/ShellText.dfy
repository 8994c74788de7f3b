/** Shell text as a person reads it: plain characters, escapes, quoted strings, comments, here-document markers
    and the lines that belong to them. It says what `code_only` of scripts/check_task_shells.py is to show of a
    text, without saying how the lexer finds its way. */
module ShellText {
  import opened Text

  /** A character of a double-quoted string, or a backslash and the character behind it. */
  datatype Inner = Char(c: char) | Backed(c: char)

  datatype Item =
    | Plain(c: char)
    | Escaped(c: char)
    | Single(text: string)
    | Double(inners: seq<Inner>)
    | Comment(text: string)
    | HereDoc(dash: bool, blanks: string, quote: string, word: string)
    | NewLine(lines: seq<string>)                 // and the lines of the here-documents pending there
    // how a text may break off
    | OpenSingle(text: string)
    | OpenDouble(inners: seq<Inner>, back: bool)
    | LastBackslash
    | OpenLines(lines: seq<string>, last: string) // a here-document whose delimiter never comes

  // ----- the text of an item -----------------------------------------------------------------------

  function InnerText(inners: seq<Inner>): string {
    if inners == [] then ""
    else
      var first := match inners[0] case Char(c) => [c] case Backed(c) => ['\\', c];
      first + InnerText(inners[1..])
  }

  /** Lines, each with its newline. */
  function LinesText(lines: seq<string>): string {
    if lines == [] then "" else (lines[0] + "\n") + LinesText(lines[1..])
  }

  function Raw(it: Item): (s: string)
    ensures s != ""
  {
    match it
    case Plain(c) => [c]
    case Escaped(c) => ['\\', c]
    case Single(text) => "'" + (text + "'")
    case Double(inners) => "\"" + (InnerText(inners) + "\"")
    case Comment(text) => "#" + text
    case HereDoc(dash, blanks, quote, word) => "<<" + ((if dash then "-" else "") + (blanks + (quote + (word + quote))))
    case NewLine(lines) => "\n" + LinesText(lines)
    case OpenSingle(text) => "'" + text
    case OpenDouble(inners, back) => "\"" + (InnerText(inners) + if back then "\\" else "")
    case LastBackslash => "\\"
    case OpenLines(lines, last) => "\n" + (LinesText(lines) + last)
  }

  function RawAll(items: seq<Item>): string {
    if items == [] then "" else Raw(items[0]) + RawAll(items[1..])
  }

  // ----- what is to be shown of it -----------------------------------------------------------------

  /** The newlines of a text, and nothing else of it. */
  function Newlines(s: string): string {
    if s == "" then "" else (if s[0] == '\n' then "\n" else "") + Newlines(s[1..])
  }

  function OneEach(lines: seq<string>): string {
    if lines == [] then "" else "\n" + OneEach(lines[1..])
  }

  function Blank(s: string): string {
    if s == "" then "" else " " + Blank(s[1..])
  }

  /** Code is shown; an escape, a marker, a quoted string and a comment are blanked; lines stay lines. */
  function Shown(it: Item, keep: bool): string {
    match it
    case Plain(c) => [c]
    case Escaped(c) => if c == '\n' then " \n" else "  "
    case Single(text) => "''" + Newlines(text)
    case Double(inners) => if keep then Raw(it) else "\"\"" + Newlines(InnerText(inners))
    case Comment(_) => ""
    case HereDoc(_, _, _, _) => Blank(Raw(it))
    case NewLine(lines) => "\n" + OneEach(lines)
    case OpenSingle(text) => "''" + Newlines(text)
    case OpenDouble(inners, _) => if keep then Raw(it) else "\"\"" + Newlines(InnerText(inners))
    case LastBackslash => "\\"
    case OpenLines(lines, last) => "\n" + (OneEach(lines) + if last == "" then "" else "\n")
  }

  function ShownAll(items: seq<Item>, keep: bool): string {
    if items == [] then "" else Shown(items[0], keep) + ShownAll(items[1..], keep)
  }

  // ----- where an item may stand -------------------------------------------------------------------

  /** A `#` behind one of these opens a comment. */
  predicate Separates(c: char) {
    c == ' ' || c == '\t' || c == '\n' || c == ';' || c == '&' || c == '|' || c == '(' || c == ')'
  }

  predicate Letter(c: char) {
    'a' <= c <= 'z' || 'A' <= c <= 'Z' || c == '_'
  }

  predicate WordChar(c: char) {
    Letter(c) || '0' <= c <= '9'
  }

  predicate IsDelimiter(word: string) {
    word != "" && Letter(word[0]) && forall i :: 0 <= i < |word| ==> WordChar(word[i])
  }

  predicate IsMarker(it: Item) {
    && it.HereDoc? && IsDelimiter(it.word)
    && (forall i :: 0 <= i < |it.blanks| ==> it.blanks[i] == ' ' || it.blanks[i] == '\t')
    && (it.quote == "" || it.quote == "'" || it.quote == "\"")
  }

  /** Some here-document marker stands at the head of the text. */
  ghost predicate BeginsMarker(s: string) {
    exists it :: IsMarker(it) && Raw(it) <= s
  }

  /** A here-document ends at its delimiter, tabs before it. */
  predicate Closing(line: string, delim: string) {
    && |delim| <= |line| && line[|line| - |delim|..] == delim
    && forall i :: 0 <= i < |line| - |delim| ==> line[i] == '\t'
  }

  predicate NoBreak(s: string) {
    '\n' !in s
  }

  predicate NoBreaks(lines: seq<string>) {
    forall i :: 0 <= i < |lines| ==> NoBreak(lines[i])
  }

  /** What is pending behind these lines: each delimiter's line closes its own document, in order. */
  function StillPending(pending: seq<string>, lines: seq<string>): seq<string>
    decreases |lines|
  {
    if lines == [] || pending == [] then pending
    else StillPending(if Closing(lines[0], pending[0]) then pending[1..] else pending, lines[1..])
  }

  /** These lines are just the documents pending. */
  predicate Closes(pending: seq<string>, lines: seq<string>) {
    if pending == [] then lines == []
    else lines != [] && Closes(if Closing(lines[0], pending[0]) then pending[1..] else pending, lines[1..])
  }

  predicate InnersOk(inners: seq<Inner>) {
    forall i :: 0 <= i < |inners| ==> inners[i].Backed? || (inners[i].c != '"' && inners[i].c != '\\')
  }

  predicate OpensComment(before: Option<char>) {
    before == None || Separates(before.value)
  }

  /** The item may stand behind `before` and in front of `follow`, with these delimiters pending. */
  ghost predicate Fits(it: Item, before: Option<char>, follow: string, pending: seq<string>) {
    match it
    case Plain(c) =>
      && c != '\n' && c != '\\' && c != '\'' && c != '"'
      && (c == '#' ==> !OpensComment(before))
      && (c == '<' ==> !BeginsMarker([c] + follow))
    case Escaped(_) => true
    case Single(text) => '\'' !in text
    case Double(inners) => InnersOk(inners)
    case Comment(text) => NoBreak(text) && OpensComment(before) && (follow == "" || follow[0] == '\n')
    case HereDoc(_, _, quote, _) => IsMarker(it) && (quote == "" ==> follow == "" || !WordChar(follow[0]))
    case NewLine(lines) => NoBreaks(lines) && Closes(pending, lines)
    case OpenSingle(text) => '\'' !in text && follow == ""
    case OpenDouble(inners, _) => InnersOk(inners) && follow == ""
    case LastBackslash => follow == ""
    case OpenLines(lines, last) =>
      NoBreaks(lines) && NoBreak(last) && StillPending(pending, lines) != [] && follow == ""
  }

  function LastOf(s: string): Option<char> {
    if s == "" then None else Some(s[|s| - 1])
  }

  function PendingBehind(it: Item, pending: seq<string>): seq<string> {
    match it
    case HereDoc(_, _, _, word) => pending + [word]
    case NewLine(_) => []
    case OpenLines(_, _) => []
    case _ => pending
  }

  /** The items make up a text read from its start, or behind `before`. */
  ghost predicate Reads(items: seq<Item>, before: Option<char>, pending: seq<string>)
    decreases |items|
  {
    items == [] ||
    (&& Fits(items[0], before, RawAll(items[1..]), pending)
     && Reads(items[1..], LastOf(Raw(items[0])), PendingBehind(items[0], pending)))
  }

  // ----- items with more text behind them ----------------------------------------------------------

  /** The items stand in front of `follow`: nothing in them reaches into it. */
  ghost predicate Leads(items: seq<Item>, before: Option<char>, pending: seq<string>, follow: string)
    decreases |items|
  {
    items == [] ||
    (&& Fits(items[0], before, RawAll(items[1..]) + follow, pending)
     && Leads(items[1..], LastOf(Raw(items[0])), PendingBehind(items[0], pending), follow))
  }

  /** The last character of the items' text, or the one before it where they have none. */
  function LastBehind(items: seq<Item>, before: Option<char>): Option<char>
    decreases |items|
  {
    if items == [] then before else LastBehind(items[1..], LastOf(Raw(items[0])))
  }

  function PendingAfter(items: seq<Item>, pending: seq<string>): seq<string>
    decreases |items|
  {
    if items == [] then pending else PendingAfter(items[1..], PendingBehind(items[0], pending))
  }

  lemma {:induction false} Behind(front: seq<Item>, back: seq<Item>, before: Option<char>, pending: seq<string>)
    requires Leads(front, before, pending, RawAll(back))
    requires Reads(back, LastBehind(front, before), PendingAfter(front, pending))
    ensures Reads(front + back, before, pending) && RawAll(front + back) == RawAll(front) + RawAll(back)
    decreases |front|
  {
    hide Fits, Raw, PendingBehind;
    if front == [] {
      assert front + back == back && RawAll(front) + RawAll(back) == RawAll(back);
    } else {
      FirstOf(front, back);
      Behind(front[1..], back, LastOf(Raw(front[0])), PendingBehind(front[0], pending));
      Assoc(Raw(front[0]), RawAll(front[1..]), RawAll(back));
    }
  }

  lemma FirstOf(front: seq<Item>, back: seq<Item>)
    requires front != []
    ensures front + back != [] && (front + back)[0] == front[0] && (front + back)[1..] == front[1..] + back
  {
  }

  lemma {:induction false} ShownBehind(front: seq<Item>, back: seq<Item>, keep: bool)
    ensures ShownAll(front + back, keep) == ShownAll(front, keep) + ShownAll(back, keep)
    decreases |front|
  {
    hide Shown;
    if front == [] {
      assert front + back == back && ShownAll(front, keep) + ShownAll(back, keep) == ShownAll(back, keep);
    } else {
      FirstOf(front, back);
      ShownBehind(front[1..], back, keep);
      Assoc(Shown(front[0], keep), ShownAll(front[1..], keep), ShownAll(back, keep));
    }
  }

  // ----- every text is made up of items ------------------------------------------------------------

  lemma Longer(it: Item, items: seq<Item>, before: Option<char>, pending: seq<string>)
    requires Fits(it, before, RawAll(items), pending)
    requires Reads(items, LastOf(Raw(it)), PendingBehind(it, pending))
    ensures Reads([it] + items, before, pending) && RawAll([it] + items) == Raw(it) + RawAll(items)
  {
    hide Fits, Raw;
    assert ([it] + items)[0] == it && ([it] + items)[1..] == items;
  }

  /** A text up to the first of a character, and behind it. */
  lemma Cut(s: string, c: char) returns (front: string, back: string)
    requires c in s
    ensures s == front + ([c] + back) && c !in front
  {
    if s[0] == c {
      front, back := "", s[1..];
    } else {
      var f, b := Cut(s[1..], c);
      front, back := [s[0]] + f, b;
      assert s == [s[0]] + s[1..];
    }
  }

  /** The lines of the documents pending, or all there is. */
  lemma TakeLines(s: string, pending: seq<string>) returns (lines: seq<string>, rest: string, closed: bool)
    ensures s == LinesText(lines) + rest && NoBreaks(lines)
    ensures closed ==> Closes(pending, lines)
    ensures !closed ==> NoBreak(rest) && StillPending(pending, lines) != []
    decreases |s|
  {
    if pending == [] {
      lines, rest, closed := [], s, true;
    } else if '\n' !in s {
      lines, rest, closed := [], s, false;
    } else {
      var line, back := Cut(s, '\n');
      var left := if Closing(line, pending[0]) then pending[1..] else pending;
      var more;
      more, rest, closed := TakeLines(back, left);
      lines := [line] + more;
      TakeOne(line, more, rest, pending);
    }
  }

  lemma TakeOne(line: string, more: seq<string>, rest: string, pending: seq<string>)
    requires pending != []
    ensures var lines, left := [line] + more, if Closing(line, pending[0]) then pending[1..] else pending;
            && LinesText(lines) + rest == line + (['\n'] + (LinesText(more) + rest))
            && (NoBreak(line) && NoBreaks(more) ==> NoBreaks(lines))
            && (Closes(left, more) ==> Closes(pending, lines))
            && StillPending(pending, lines) == StillPending(left, more)
  {
    var lines := [line] + more;
    assert lines[0] == line && lines[1..] == more;
    assert LinesText(lines) == (line + "\n") + LinesText(more);
    hide Closing, NoBreak;
  }

  /** What stands between double quotes, up to the closing one or to the end. */
  lemma TakeInners(s: string) returns (inners: seq<Inner>, rest: string, closed: bool, back: bool)
    ensures InnersOk(inners)
    ensures closed ==> s == InnerText(inners) + ("\"" + rest)
    ensures !closed ==> s == InnerText(inners) + if back then "\\" else ""
    decreases |s|
  {
    if s == "" {
      inners, rest, closed, back := [], "", false, false;
    } else if s[0] == '"' {
      inners, rest, closed, back := [], s[1..], true, false;
    } else if s == "\\" {
      inners, rest, closed, back := [], "", false, true;
    } else {
      var n := if s[0] == '\\' then 2 else 1;
      var first := if s[0] == '\\' then Backed(s[1]) else Char(s[0]);
      var more;
      more, rest, closed, back := TakeInners(s[n..]);
      inners := [first] + more;
      assert inners[1..] == more;
      assert s == s[..n] + s[n..];
      assert InnerText(inners) == s[..n] + InnerText(more);
    }
  }

  /** The longest run of word characters at the head of a text. */
  lemma TakeWord(s: string) returns (word: string, rest: string)
    ensures s == word + rest && (forall i :: 0 <= i < |word| ==> WordChar(word[i]))
    ensures rest == "" || !WordChar(rest[0])
  {
    if s == "" || !WordChar(s[0]) {
      word, rest := "", s;
    } else {
      var w, r := TakeWord(s[1..]);
      word, rest := [s[0]] + w, r;
      assert s == [s[0]] + s[1..];
    }
  }

  /** A text that begins with a marker begins with one that goes as far as it can. */
  lemma TakeMarker(s: string) returns (it: Item, rest: string)
    requires BeginsMarker(s)
    ensures IsMarker(it) && s == Raw(it) + rest
    ensures it.quote == "" ==> rest == "" || !WordChar(rest[0])
  {
    var m :| IsMarker(m) && Raw(m) <= s;
    var behind := s[|Raw(m)|..];
    hide Raw;
    Remainder(Raw(m), s);
    hide IsMarker, WordChar;
    if m.quote == "" {
      var w, r := TakeWord(behind);
      it, rest := m.(word := m.word + w), r;
      LongerWord(m, w);
      Assoc(Raw(m), w, r);
    } else {
      it, rest := m, behind;
    }
  }

  lemma Remainder(a: string, s: string)
    requires a <= s
    ensures s == a + s[|a|..]
  {
  }

  lemma LongerWord(m: Item, w: string)
    requires IsMarker(m) && m.quote == "" && forall i :: 0 <= i < |w| ==> WordChar(w[i])
    ensures IsMarker(m.(word := m.word + w)) && Raw(m.(word := m.word + w)) == Raw(m) + w
  {
    assert m.word + w + "" == m.word + w && m.word + "" == m.word;
  }

  /** The first item of a text, and what is behind it. */
  lemma FirstItem(s: string, before: Option<char>, pending: seq<string>) returns (it: Item, rest: string)
    requires s != ""
    ensures Fits(it, before, rest, pending) && s == Raw(it) + rest
  {
    var c, tail := s[0], s[1..];
    assert s == [c] + tail;
    if c == '\n' {
      var lines, behind, closed := TakeLines(tail, pending);
      if closed {
        it, rest := NewLine(lines), behind;
        Assoc("\n", LinesText(lines), behind);
      } else {
        it, rest := OpenLines(lines, behind), "";
        assert Raw(it) + "" == Raw(it);
      }
    } else if c == '\\' {
      if tail == "" {
        it, rest := LastBackslash, "";
      } else {
        it, rest := Escaped(tail[0]), tail[1..];
        assert s == ['\\', tail[0]] + tail[1..];
      }
    } else if c == '\'' {
      it, rest := FirstSingle(tail);
    } else if c == '"' {
      it, rest := FirstDouble(tail);
    } else if c == '#' && OpensComment(before) {
      it, rest := FirstComment(tail);
    } else if c == '<' && BeginsMarker(s) {
      it, rest := TakeMarker(s);
    } else {
      it, rest := Plain(c), tail;
    }
  }

  lemma FirstSingle(tail: string) returns (it: Item, rest: string)
    ensures (it.Single? || it.OpenSingle?) && '\'' !in it.text && (it.OpenSingle? ==> rest == "")
    ensures ['\''] + tail == Raw(it) + rest
  {
    if '\'' in tail {
      var text, behind := Cut(tail, '\'');
      it, rest := Single(text), behind;
      assert Raw(it) + rest == ['\''] + (text + (['\''] + behind));
    } else {
      it, rest := OpenSingle(tail), "";
      assert Raw(it) + rest == ['\''] + tail;
    }
  }

  lemma FirstDouble(tail: string) returns (it: Item, rest: string)
    ensures (it.Double? || it.OpenDouble?) && InnersOk(it.inners) && (it.OpenDouble? ==> rest == "")
    ensures ['"'] + tail == Raw(it) + rest
  {
    var inners, behind, closed, back := TakeInners(tail);
    if closed {
      it, rest := Double(inners), behind;
      assert Raw(it) + rest == ['"'] + (InnerText(inners) + ("\"" + behind));
    } else {
      it, rest := OpenDouble(inners, back), "";
      assert Raw(it) + rest == ['"'] + tail;
    }
  }

  lemma FirstComment(tail: string) returns (it: Item, rest: string)
    ensures it.Comment? && NoBreak(it.text) && (rest == "" || rest[0] == '\n')
    ensures ['#'] + tail == Raw(it) + rest
  {
    if '\n' in tail {
      var text, behind := Cut(tail, '\n');
      it, rest := Comment(text), ['\n'] + behind;
      assert Raw(it) + rest == ['#'] + (text + (['\n'] + behind));
    } else {
      it, rest := Comment(tail), "";
      assert Raw(it) + rest == ['#'] + tail;
    }
  }

  /** Every text there is, whatever stands in it. */
  lemma {:induction false} EveryText(s: string, before: Option<char>, pending: seq<string>) returns (items: seq<Item>)
    ensures Reads(items, before, pending) && RawAll(items) == s
    decreases |s|
  {
    hide *;
    if s == "" {
      items := NoItems(before, pending);
    } else {
      var it, rest := FirstItem(s, before, pending);
      Shorter(it, rest);
      var more := EveryText(rest, LastOf(Raw(it)), PendingBehind(it, pending));
      items := [it] + more;
      Longer(it, more, before, pending);
    }
  }

  lemma NoItems(before: Option<char>, pending: seq<string>) returns (items: seq<Item>)
    ensures Reads(items, before, pending) && RawAll(items) == ""
  {
    items := [];
  }

  lemma Shorter(it: Item, rest: string)
    ensures |rest| < |Raw(it) + rest|
  {
  }
}
