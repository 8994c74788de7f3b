/** `size_align` as scripts/copyback_guard.py runs it, on a type's text, with the top-level split it
    leans on (scripts/probes/mut_copyback_matrix.py). */
module LayoutText {
  import opened Text
  import opened LlvmTypes
  import opened Layout

  // ----- splitting on top-level commas -------------------------------------------------

  predicate Opens(c: char) {
    c == '(' || c == '[' || c == '{' || c == '<'
  }

  predicate Closes(c: char) {
    c == ')' || c == ']' || c == '}' || c == '>'
  }

  function Deeper(depth: int, c: char): int {
    if Opens(c) then depth + 1 else if Closes(c) then depth - 1 else depth
  }

  /** The source's scan, with the depth so far, the part being gathered and the parts done. */
  function Scan(s: string, depth: int, cur: string, out: seq<string>): seq<string>
    decreases |s|
  {
    if s == "" then if cur != "" then out + [Strip(cur)] else out
    else
      var d := Deeper(depth, s[0]);
      if s[0] == ',' && d == 0 then Scan(s[1..], d, "", out + [Strip(cur)])
      else Scan(s[1..], d, cur + [s[0]], out)
  }

  function SplitTop(s: string): seq<string> {
    Scan(s, 0, "", [])
  }

  method SplitTopLevel(s: string) returns (out: seq<string>)
    ensures out == SplitTop(s)
  {
    out := [];
    var depth, cur: string := 0, "";
    for i := 0 to |s|
      invariant SplitTop(s) == Scan(s[i..], depth, cur, out)
    {
      assert s[i..][0] == s[i] && s[i..][1..] == s[i + 1..];
      depth := Deeper(depth, s[i]);
      if s[i] == ',' && depth == 0 {
        out := out + [Strip(cur)];
        cur := "";
      } else {
        cur := cur + [s[i]];
      }
    }
    if cur != "" {
      out := out + [Strip(cur)];
    }
  }

  /** Parts are no longer than what they were split from. */
  lemma {:induction false} ScanShort(s: string, depth: int, cur: string, out: seq<string>, n: nat)
    requires |cur| + |s| <= n && forall p | p in out :: |p| <= n
    ensures forall p | p in Scan(s, depth, cur, out) :: |p| <= n
    decreases |s|
  {
    if s != "" {
      var d := Deeper(depth, s[0]);
      if s[0] == ',' && d == 0 {
        ScanShort(s[1..], d, "", out + [Strip(cur)], n);
      } else {
        ScanShort(s[1..], d, cur + [s[0]], out, n);
      }
    }
  }

  // ----- measuring ---------------------------------------------------------------------

  /** `_SIZES`. */
  function ScalarNamed(t: string): Option<Scalar> {
    if t == "i1" then Some(I1)
    else if t == "i8" then Some(I8)
    else if t == "i16" then Some(I16)
    else if t == "i32" then Some(I32)
    else if t == "i64" then Some(I64)
    else if t == "ptr" then Some(Ptr)
    else if t == "float" then Some(Float)
    else if t == "double" then Some(Double)
    else if t == "i128" then Some(I128)
    else None
  }

  /** `t[1:-1]`. */
  function Inside(t: string): string {
    if |t| < 2 then "" else t[1..|t| - 1]
  }

  datatype Counted = Counted(count: nat, elem: string)

  /** `<open>(\d+) x (.+)<close>`, matched whole. */
  function MatchCounted(t: string, open: char, close: char): (m: Option<Counted>)
    ensures m.Some? ==> |m.value.elem| < |t|
  {
    if |t| < 2 || t[0] != open || t[|t| - 1] != close then None
    else
      var inner := Inside(t);
      var digits := Before(inner, ' ');
      var rest := inner[|digits|..];
      if digits != "" && AllDigits(digits) && " x " <= rest && |rest| > 3 && '\n' !in rest
      then Some(Counted(Number(digits), rest[3..]))
      else None
  }

  function InnerFields(t: string): seq<string> {
    var inner := Strip(Inside(t));
    if inner == "" then [] else SplitTop(inner)
  }

  /** Bytes and alignment of the type a text spells; None where the source raises, on a text that spells
      none or on a division by an alignment of zero. */
  function Measure(text: string): Option<Extent>
    decreases |text|, 1, 0
  {
    var t := Strip(text);
    if ScalarNamed(t).Some? then Some(ScalarExtent(ScalarNamed(t).value))
    else if t != "" && t[0] == '{' then
      ScanShort(Strip(Inside(t)), 0, "", [], |Strip(Inside(t))|);
      match MeasureFields(InnerFields(t), Extent(0, 1), |text|)
      case None => None
      case Some(e) => if e.align == 0 then None else Some(Extent(RoundUp(e.size, e.align), e.align))
    else
      match MatchCounted(t, '[', ']')
      case Some(m) =>
        (match Measure(m.elem)
         case None => None
         case Some(e) => Some(Extent(Times(m.count, e.size), e.align)))
      case None =>
        match MatchCounted(t, '<', '>')
        case None => None
        case Some(m) =>
          match Measure(m.elem)
          case None => None
          case Some(e) => Some(Extent(Times(m.count, e.size), Times(m.count, e.size)))
  }

  function MeasureFields(fields: seq<string>, at: Extent, bound: nat): Option<Extent>
    requires forall f | f in fields :: |f| < bound
    decreases bound, 0, |fields|
  {
    if fields == [] then Some(at)
    else
      match Measure(fields[0])
      case None => None
      case Some(f) => if f.align == 0 then None else MeasureFields(fields[1..], Place(at, f), bound)
  }

  method SizeAlign(text: string) returns (r: Option<Extent>)
    ensures r == Measure(text)
    decreases |text|
  {
    var t := Strip(text);
    var scalar := ScalarNamed(t);
    if scalar.Some? {
      return Some(ScalarExtent(scalar.value));
    }
    if t != "" && t[0] == '{' {
      ScanShort(Strip(Inside(t)), 0, "", [], |Strip(Inside(t))|);
      var inner, fields := Strip(Inside(t)), [];
      if inner != "" {
        fields := SplitTopLevel(inner);
      }
      var at := Extent(0, 1);
      for i := 0 to |fields|
        invariant MeasureFields(fields, Extent(0, 1), |text|) == MeasureFields(fields[i..], at, |text|)
      {
        assert fields[i..][0] == fields[i] && fields[i..][1..] == fields[i + 1..];
        var f := SizeAlign(fields[i]);
        if f.None? || f.value.align == 0 {
          return None;
        }
        at := Place(at, f.value);
      }
      return if at.align == 0 then None else Some(Extent(RoundUp(at.size, at.align), at.align));
    }
    var many := MatchCounted(t, '[', ']');
    if many.Some? {
      var e := SizeAlign(many.value.elem);
      return if e.None? then None else Some(Extent(Times(many.value.count, e.value.size), e.value.align));
    }
    var vector := MatchCounted(t, '<', '>');
    if vector.Some? {
      var e := SizeAlign(vector.value.elem);
      if e.None? {
        return None;
      }
      var n := Times(vector.value.count, e.value.size);
      return Some(Extent(n, n));
    }
    return None;
  }

  // ----- a printed type is measured as the type ------------------------------------------

  predicate Quiet(w: string) {
    forall i :: 0 <= i < |w| ==> !Opens(w[i]) && !Closes(w[i])
  }

  /** Text without brackets is gathered whole, commas and all, unless a comma stands at the top. */
  lemma {:induction false} ScanQuiet(w: string, x: string, d: int, cur: string, out: seq<string>)
    requires Quiet(w) && (d != 0 || ',' !in w)
    ensures Scan(w + x, d, cur, out) == Scan(x, d, cur + w, out)
    decreases |w|
  {
    if w == "" {
      assert w + x == x && cur + w == cur;
    } else {
      Unroll(w, x, cur);
      ScanQuiet(w[1..], x, d, cur + [w[0]], out);
    }
  }

  lemma Unroll(w: string, x: string, cur: string)
    requires w != ""
    ensures (w + x)[0] == w[0] && (w + x)[1..] == w[1..] + x
    ensures cur + [w[0]] + w[1..] == cur + w
  {
  }

  lemma ScanOne(c: char, x: string, d: int, cur: string, out: seq<string>)
    requires c != ','
    ensures Scan([c] + x, d, cur, out) == Scan(x, Deeper(d, c), cur + [c], out)
  {
    assert ([c] + x)[1..] == x;
  }

  lemma QuietNumeral(n: nat)
    ensures Quiet(Decimal(n) + " x ") && ',' !in Decimal(n) + " x "
  {
    var w := Decimal(n) + " x ";
    forall i | 0 <= i < |w|
      ensures IsDigit(w[i]) || w[i] == ' ' || w[i] == 'x'
    {
      assert i < |Decimal(n)| ==> w[i] == Decimal(n)[i] && IsDigit(w[i]);
    }
  }

  lemma QuietName(s: Scalar)
    ensures Quiet(Name(s)) && ',' !in Name(s)
  {
    NameChars(s);
    assert forall i :: 0 <= i < |Name(s)| ==> IsNameChar(Name(s)[i]);
  }

  /** A printed type is gathered whole: its own commas stand inside its brackets. */
  lemma {:induction false} ScanType(t: Type, x: string, d: nat, cur: string, out: seq<string>)
    ensures Scan(Print(t) + x, d, cur, out) == Scan(x, d, cur + Print(t), out)
    decreases t, 1
  {
    match t
    case Plain(s) =>
      QuietName(s);
      ScanQuiet(Name(s), x, d, cur, out);
    case Array(n, elem) =>
      ScanCounted('[', n, Print(elem), ']', x, d, cur, out);
      ScanType(elem, "]" + x, d + 1, cur + "[" + (Decimal(n) + " x "), out);
      CountedText('[', n, Print(elem), ']', x, cur);
      ScanOne(']', x, d + 1, cur + "[" + (Decimal(n) + " x ") + Print(elem), out);
    case Vector(n, s) =>
      ScanCounted('<', n, Name(s), '>', x, d, cur, out);
      QuietName(s);
      ScanQuiet(Name(s), ">" + x, d + 1, cur + "<" + (Decimal(n) + " x "), out);
      CountedText('<', n, Name(s), '>', x, cur);
      ScanOne('>', x, d + 1, cur + "<" + (Decimal(n) + " x ") + Name(s), out);
    case Struct(fields) =>
      ScanStruct(t, x, d, cur, out);
  }

  lemma CountedText(open: char, n: nat, elem: string, close: char, x: string, cur: string)
    ensures [open] + (Decimal(n) + (" x " + (elem + [close]))) + x ==
              [open] + ((Decimal(n) + " x ") + (elem + ([close] + x)))
    ensures cur + [open] + (Decimal(n) + " x ") + elem + [close] ==
              cur + ([open] + (Decimal(n) + (" x " + (elem + [close]))))
  {
  }

  lemma ScanCounted(open: char, n: nat, elem: string, close: char, x: string, d: nat, cur: string, out: seq<string>)
    requires Opens(open)
    ensures Scan([open] + ((Decimal(n) + " x ") + (elem + ([close] + x))), d, cur, out) ==
              Scan(elem + ([close] + x), d + 1, cur + [open] + (Decimal(n) + " x "), out)
  {
    var w, y := Decimal(n) + " x ", elem + ([close] + x);
    ScanOne(open, w + y, d, cur, out);
    QuietNumeral(n);
    ScanQuiet(w, y, d + 1, cur + [open], out);
  }

  lemma {:induction false} ScanStruct(t: Type, x: string, d: nat, cur: string, out: seq<string>)
    requires t.Struct?
    ensures Scan(Print(t) + x, d, cur, out) == Scan(x, d, cur + Print(t), out)
    decreases t, 0, 1
  {
    var fields := t.fields;
    if fields == [] {
      assert "{}" + x == ['{'] + (['}'] + x);
      ScanOne('{', ['}'] + x, d, cur, out);
      ScanOne('}', x, d + 1, cur + ['{'], out);
      assert cur + ['{'] + ['}'] == cur + "{}";
    } else {
      var first, rest := Print(fields[0]), PrintRest(fields[1..]);
      StructText(t, x);
      OpeningText(first, rest, x, cur);
      ScanOne('{', " " + (first + (rest + x)), d, cur, out);
      ScanQuiet(" ", first + (rest + x), d + 1, cur + ['{'], out);
      ScanType(fields[0], rest + x, d + 1, cur + ['{'] + " ", out);
      ScanRest(fields[1..], x, d, cur + ['{'] + " " + first, out);
    }
  }

  lemma OpeningText(first: string, rest: string, x: string, cur: string)
    ensures "{ " + (first + (rest + x)) == ['{'] + (" " + (first + (rest + x)))
    ensures cur + ['{'] + " " + first + rest == cur + ("{ " + (first + rest))
  {
  }

  lemma ClosingText(x: string, cur: string)
    ensures " }" + x == " " + (['}'] + x)
    ensures cur + " " + ['}'] == cur + " }"
  {
  }

  lemma CommaText(first: string, rest: string, cur: string)
    ensures cur + ", " + first + rest == cur + (", " + (first + rest))
  {
  }

  lemma {:induction false} ScanRest(fields: seq<Type>, x: string, d: nat, cur: string, out: seq<string>)
    ensures Scan(PrintRest(fields) + x, d + 1, cur, out) == Scan(x, d, cur + PrintRest(fields), out)
    decreases fields, 0
  {
    RestText(fields, x);
    if fields == [] {
      ClosingText(x, cur);
      ScanQuiet(" ", ['}'] + x, d + 1, cur, out);
      ScanOne('}', x, d + 1, cur + " ", out);
    } else {
      var first, rest := Print(fields[0]), PrintRest(fields[1..]);
      ScanQuiet(", ", first + (rest + x), d + 1, cur, out);
      ScanType(fields[0], rest + x, d + 1, cur + ", ", out);
      ScanRest(fields[1..], x, d, cur + ", " + first, out);
      CommaText(first, rest, cur);
    }
  }

  // ----- a struct's text splits into its fields' texts -----------------------------------

  /** The fields behind the first, as they stand between a struct's braces. */
  function Middle(fields: seq<Type>): string
    decreases fields
  {
    if fields == [] then "" else ", " + (Print(fields[0]) + Middle(fields[1..]))
  }

  function Texts(fields: seq<Type>): seq<string> {
    if fields == [] then [] else [Print(fields[0])] + Texts(fields[1..])
  }

  predicate Bare(s: string) {
    s != "" && !White(s[0]) && !White(s[|s| - 1])
  }

  lemma PrintBare(t: Type)
    ensures Bare(Print(t))
  {
    FirstChar(t);
    match t
    case Plain(s) => NameChars(s);
    case Struct(fields) =>
      if fields != [] {
        LastOfRest(fields[1..]);
      }
    case Array(n, elem) =>
    case Vector(n, s) =>
  }

  lemma {:induction false} LastOfRest(fields: seq<Type>)
    ensures |PrintRest(fields)| >= 2 && PrintRest(fields)[|PrintRest(fields)| - 1] == '}'
    ensures PrintRest(fields) == Middle(fields) + " }"
    decreases fields
  {
    if fields != [] {
      LastOfRest(fields[1..]);
      var p := Print(fields[0]);
      assert ", " + (p + (Middle(fields[1..]) + " }")) == (", " + (p + Middle(fields[1..]))) + " }";
    }
  }

  lemma StripBare(s: string)
    requires Bare(s)
    ensures Strip(s) == s && Strip(" " + s) == s
  {
    assert (" " + s)[1..] == s;
  }

  /** Splitting gives the fields back: the first stands in `cur`, the rest behind it. */
  lemma {:induction false} SplitFields(fields: seq<Type>, cur: string, p: string, out: seq<string>)
    requires Bare(p) && (cur == p || cur == " " + p)
    ensures Scan(Middle(fields), 0, cur, out) == out + ([p] + Texts(fields))
    decreases |fields|
  {
    StripBare(p);
    if fields == [] {
      assert [p] + [] == [p];
    } else {
      var first, mid := Print(fields[0]), Middle(fields[1..]);
      PrintBare(fields[0]);
      AfterComma(first, mid, cur, out);
      ScanType(fields[0], mid, 0, " ", out + [p]);
      SplitFields(fields[1..], " " + first, first, out + [p]);
      Regroup(out, p, [first] + Texts(fields[1..]));
    }
  }

  lemma Regroup(out: seq<string>, p: string, rest: seq<string>)
    ensures (out + [p]) + rest == out + ([p] + rest)
  {
  }

  lemma AfterComma(first: string, mid: string, cur: string, out: seq<string>)
    ensures Scan(", " + (first + mid), 0, cur, out) == Scan(first + mid, 0, " ", out + [Strip(cur)])
  {
    var s := ", " + (first + mid);
    assert s[1..] == " " + (first + mid);
    ScanQuiet(" ", first + mid, 0, "", out + [Strip(cur)]);
    assert "" + " " == " ";
  }

  lemma StructSplits(t: Type)
    requires t.Struct?
    ensures InnerFields(Print(t)) == Texts(t.fields)
  {
    var fields := t.fields;
    if fields == [] {
      assert Strip("") == "";
    } else {
      var first, mid := Print(fields[0]), Middle(fields[1..]);
      InsideStruct(t);
      ScanType(fields[0], mid, 0, "", []);
      assert "" + first == first;
      PrintBare(fields[0]);
      SplitFields(fields[1..], first, first, []);
      assert [] + ([first] + Texts(fields[1..])) == Texts(fields);
    }
  }

  lemma InsideStruct(t: Type)
    requires t.Struct? && t.fields != []
    ensures Strip(Inside(Print(t))) == Print(t.fields[0]) + Middle(t.fields[1..])
  {
    var first, mid := Print(t.fields[0]), Middle(t.fields[1..]);
    LastOfRest(t.fields[1..]);
    var body := first + mid;
    BodyBare(t.fields);
    StructAround(first, mid);
    InsideBody(body);
  }

  lemma StructAround(first: string, mid: string)
    ensures "{ " + (first + (mid + " }")) == "{" + (" " + (first + mid) + " ") + "}"
  {
  }

  lemma InsideBody(body: string)
    requires Bare(body)
    ensures Strip(Inside("{" + (" " + body + " ") + "}")) == body
  {
    assert Inside("{" + (" " + body + " ") + "}") == " " + body + " ";
    StripAround(body);
  }

  lemma StripAround(body: string)
    requires Bare(body)
    ensures Strip(" " + body + " ") == body
  {
    assert (" " + body + " ")[1..] == body + " ";
    assert (body + " ")[..|body|] == body;
    assert Strip(body) == body;
  }

  lemma {:induction false} BodyBare(fields: seq<Type>)
    requires fields != []
    ensures Bare(Print(fields[0]) + Middle(fields[1..]))
    decreases |fields|
  {
    PrintBare(fields[0]);
    if |fields| > 1 {
      BodyBare(fields[1..]);
      assert fields[1..][0] == fields[1] && fields[1..][1..] == fields[2..];
      assert Middle(fields[1..]) == ", " + (Print(fields[1]) + Middle(fields[2..]));
    } else {
      assert Print(fields[0]) + "" == Print(fields[0]);
    }
  }

  // ----- measuring the text is measuring the type ------------------------------------------

  lemma NamedBack(s: Scalar)
    ensures ScalarNamed(Name(s)) == Some(s)
  {
  }

  lemma NotNamed(t: string)
    requires t != "" && !('a' <= t[0] <= 'z')
    ensures ScalarNamed(t) == None
  {
  }

  lemma CountedMatches(open: char, n: nat, elem: string, close: char)
    requires elem != "" && '\n' !in elem
    ensures MatchCounted([open] + (Decimal(n) + (" x " + (elem + [close]))), open, close) == Some(Counted(n, elem))
  {
    var inner := Decimal(n) + (" x " + elem);
    assert [open] + (Decimal(n) + (" x " + (elem + [close]))) == [open] + inner + [close];
    InsideOf(open, inner, close);
    CountAndElem(n, elem);
    OnOneLine(elem);
    DecimalRoundTrip(n);
  }

  lemma OnOneLine(elem: string)
    requires '\n' !in elem
    ensures '\n' !in " x " + elem
  {
  }

  /** A type is printed on one line. */
  lemma {:induction false} PrintOnOneLine(t: Type)
    ensures '\n' !in Print(t)
    decreases t, 0
  {
    match t
    case Plain(s) => NameChars(s);
    case Vector(n, s) =>
      NameChars(s);
      assert AllDigits(Decimal(n));
    case Array(n, elem) =>
      PrintOnOneLine(elem);
      assert AllDigits(Decimal(n));
    case Struct(fields) =>
      if fields != [] {
        PrintOnOneLine(fields[0]);
        RestOnOneLine(fields[1..]);
      }
  }

  lemma {:induction false} RestOnOneLine(fields: seq<Type>)
    ensures '\n' !in PrintRest(fields)
    decreases fields, 0
  {
    if fields != [] {
      PrintOnOneLine(fields[0]);
      RestOnOneLine(fields[1..]);
    }
  }

  lemma InsideOf(open: char, inner: string, close: char)
    ensures var t := [open] + inner + [close];
            |t| >= 2 && t[0] == open && t[|t| - 1] == close && Inside(t) == inner
  {
  }

  lemma CountAndElem(n: nat, elem: string)
    ensures var inner := Decimal(n) + (" x " + elem);
            && Before(inner, ' ') == Decimal(n)
            && inner[|Decimal(n)|..] == " x " + elem && " x " <= " x " + elem && (" x " + elem)[3..] == elem
  {
    var d := Decimal(n);
    BeforeSpace(d, "x " + elem);
    CutNumeral(d, elem);
  }

  lemma CutNumeral(d: string, elem: string)
    ensures d + (" x " + elem) == d + " " + ("x " + elem)
    ensures (d + (" x " + elem))[|d|..] == " x " + elem
    ensures " x " <= " x " + elem && (" x " + elem)[3..] == elem
  {
  }

  lemma BeforeSpace(d: string, x: string)
    requires AllDigits(d)
    ensures Before(d + " " + x, ' ') == d
  {
    var s := d + " " + x;
    var r := Before(s, ' ');
    assert r == s[..|r|] && s[|d|] == ' ';
    assert forall i :: 0 <= i < |d| ==> s[i] == d[i] && IsDigit(d[i]) && s[i] != ' ';
    assert |r| == |d|;
    assert s[..|d|] == d;
  }

  /** What `size_align` makes of a type's text is the measurement of the type, of any type at all: the text's
      recursion, its trimming and its splitting lose nothing. */
  lemma {:induction false} MeasureIsMeasured(t: Type)
    ensures Measure(Print(t)) == Measured(t)
    decreases t, 1
  {
    match t
    case Plain(s) => MeasureName(s);
    case Vector(n, s) => MeasureVector(t);
    case Array(n, elem) =>
      MeasureIsMeasured(elem);
      MeasureArray(t);
    case Struct(fields) =>
      StructSplits(t);
      FieldsShort(t);
      MeasureTexts(fields, Extent(0, 1), |Print(t)|);
      MeasureStruct(t);
  }

  /** So where every vector has elements it is the type's extent. */
  lemma MeasureIsExtent(t: Type)
    requires Sized(t)
    ensures Measure(Print(t)) == Some(ExtentOf(t))
  {
    MeasureIsMeasured(t);
    MeasuredIsExtent(t);
  }

  lemma MeasureName(s: Scalar)
    ensures Measure(Name(s)) == Some(ScalarExtent(s))
  {
    PrintBare(Plain(s));
    StripBare(Name(s));
    NamedBack(s);
  }

  lemma MeasureVector(t: Type)
    requires t.Vector?
    ensures Measure(Print(t)) == Measured(t)
  {
    PrintBare(t);
    StripBare(Print(t));
    NotNamed(Print(t));
    NameChars(t.scalar);
    CountedMatches('<', t.count, Name(t.scalar), '>');
    MeasureName(t.scalar);
  }

  lemma MeasureArray(t: Type)
    requires t.Array? && Measure(Print(t.elem)) == Measured(t.elem)
    ensures Measure(Print(t)) == Measured(t)
  {
    PrintBare(t);
    StripBare(Print(t));
    NotNamed(Print(t));
    FirstChar(t.elem);
    PrintOnOneLine(t.elem);
    CountedMatches('[', t.count, Print(t.elem), ']');
  }

  lemma MeasureStruct(t: Type)
    requires t.Struct?
    requires InnerFields(Print(t)) == Texts(t.fields)
    requires forall f | f in Texts(t.fields) :: |f| < |Print(t)|
    requires MeasureFields(Texts(t.fields), Extent(0, 1), |Print(t)|) == MeasuredFields(t.fields, Extent(0, 1))
    ensures Measure(Print(t)) == Measured(t)
  {
    PrintBare(t);
    StripBare(Print(t));
    FirstChar(t);
    NotNamed(Print(t));
  }

  lemma FieldsShort(t: Type)
    requires t.Struct?
    ensures forall f | f in InnerFields(Print(t)) :: |f| < |Print(t)|
  {
    var inner := Strip(Inside(Print(t)));
    FirstChar(t);
    ScanShort(inner, 0, "", [], |inner|);
  }

  lemma {:induction false} MeasureTexts(fields: seq<Type>, at: Extent, bound: nat)
    requires at.align > 0
    requires forall f | f in Texts(fields) :: |f| < bound
    ensures MeasureFields(Texts(fields), at, bound) == MeasuredFields(fields, at)
    decreases fields, 0
  {
    hide Place;
    if fields != [] {
      var texts := Texts(fields);
      assert texts[0] in texts && texts[1..] == Texts(fields[1..]);
      MeasureIsMeasured(fields[0]);
      var f := Measured(fields[0]);
      if f.Some? && f.value.align > 0 {
        PlaceIs(at, f.value);
        MeasureTexts(fields[1..], Place(at, f.value), bound);
      }
    }
  }
}
