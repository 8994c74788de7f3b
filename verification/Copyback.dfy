/** The judgement of scripts/copyback_guard.py: which functions take a type by value, itself or held
    inline by a struct that is, read off the text of their parameters. */
module CopybackGuard {
  import opened Text
  import opened LlvmTypes

  /** `s` is `t` or a type nested in it at any depth. */
  predicate Holds(t: Type, s: Type)
    decreases t, 1
  {
    t == s ||
    match t
    case Plain(_) => false
    case Struct(fields) => AnyHolds(fields, s)
    case Array(_, elem) => Holds(elem, s)
    case Vector(_, scalar) => s == Plain(scalar)
  }

  predicate AnyHolds(fields: seq<Type>, s: Type)
    decreases fields, 0
  {
    fields != [] && (Holds(fields[0], s) || AnyHolds(fields[1..], s))
  }

  /** `pat in s`. */
  predicate InText(pat: string, s: string) {
    Find(s, pat, 0).Some?
  }

  // ----- a nested type's text stands in its holder's ---------------------------------

  lemma InTextAt(pat: string, s: string, pre: string, post: string)
    requires s == pre + pat + post
    ensures InText(pat, s)
  {
    assert s[|pre|..|pre| + |pat|] == pat;
    assert OccursAt(s, pat, |pre|);
    FindFirst(s, pat, 0);
  }

  lemma {:induction false} HeldIsPrinted(t: Type, s: Type) returns (pre: string, post: string)
    requires s.Struct? && Holds(t, s)
    ensures Print(t) == pre + Print(s) + post
    decreases t, 1
  {
    if t == s {
      pre, post := "", "";
      assert Print(t) == "" + Print(s) + "";
    } else if t.Array? {
      var a, b := HeldIsPrinted(t.elem, s);
      var head := "[" + Decimal(t.count) + " x ";
      pre, post := head + a, b + "]";
      assert Print(t) == head + (Print(t.elem) + "]");
      Wrap(head, a, Print(s), b, "]");
    } else {
      var a, b := HeldAmong(t.fields, s);
      AmongText(t.fields);
      Reopened(a, Print(s), b, Print(t.fields[0]) + PrintRest(t.fields[1..]));
      pre, post := "{ " + a[2..], b;
    }
  }

  lemma Reopened(a: string, p: string, b: string, x: string)
    requires |a| >= 2 && a + p + b == ", " + x
    ensures "{ " + x == ("{ " + a[2..]) + p + b
  {
    assert x == (", " + x)[2..] == (a + p + b)[2..] == a[2..] + p + b;
    assert "{ " + (a[2..] + p + b) == ("{ " + a[2..]) + p + b;
  }

  lemma Wrap(h: string, a: string, p: string, b: string, z: string)
    ensures h + ((a + p + b) + z) == (h + a) + p + (b + z)
  {
  }

  /** A non-empty struct's text is its fields' text with another opening. */
  lemma AmongText(fields: seq<Type>)
    requires fields != []
    ensures PrintRest(fields) == ", " + (Print(fields[0]) + PrintRest(fields[1..]))
    ensures Print(Struct(fields)) == "{ " + (Print(fields[0]) + PrintRest(fields[1..]))
  {
  }

  lemma {:induction false} HeldAmong(fields: seq<Type>, s: Type) returns (pre: string, post: string)
    requires s.Struct? && AnyHolds(fields, s)
    ensures PrintRest(fields) == pre + Print(s) + post && |pre| >= 2
    decreases fields, 0
  {
    var p, r := Print(fields[0]), PrintRest(fields[1..]);
    if Holds(fields[0], s) {
      var a, b := HeldIsPrinted(fields[0], s);
      pre, post := ", " + a, b + r;
      Wrap(", ", a, Print(s), b, r);
    } else {
      var a, b := HeldAmong(fields[1..], s);
      pre, post := ", " + p + a, b;
      Deep(", ", p, a, Print(s), b);
    }
  }

  lemma Deep(h: string, p: string, a: string, q: string, b: string)
    ensures h + (p + (a + q + b)) == (h + p + a) + q + b
  {
  }

  // ----- every opening brace starts a nested struct ------------------------------------

  predicate NoBrace(s: string) {
    '{' !in s
  }

  lemma NumeralNoBrace(n: nat)
    ensures NoBrace(Decimal(n))
  {
    assert AllDigits(Decimal(n));
  }

  /** A brace in `t`'s text is where a struct nested in `t` begins. */
  lemma {:induction false} BraceStartsStruct(t: Type, z: string, p: nat) returns (node: Type, z': string)
    requires p < |Print(t)| && Print(t)[p] == '{'
    ensures node.Struct? && Holds(t, node)
    ensures p <= |Print(t) + z| && (Print(t) + z)[p..] == Print(node) + z'
    decreases t, 1
  {
    NoBraceInName(t, p);
    if t.Array? {
      node, z' := BraceInArray(t, z, p);
    } else if p == 0 {
      node, z' := t, z;
      assert (Print(t) + z)[0..] == Print(t) + z;
    } else {
      SameBehindOpening(t.fields, p);
      node, z' := BraceAmong(t.fields, z, p);
      Reopen(t.fields, z, p);
    }
  }

  lemma NoBraceInName(t: Type, p: nat)
    requires p < |Print(t)| && Print(t)[p] == '{'
    ensures t.Array? || (t.Struct? && (p > 0 ==> t.fields != []))
  {
    if t.Plain? {
      NameChars(t.scalar);
    } else if t.Vector? {
      VectorNoBrace(t, p);
    }
  }

  lemma {:induction false} BraceInArray(t: Type, z: string, p: nat) returns (node: Type, z': string)
    requires t.Array? && p < |Print(t)| && Print(t)[p] == '{'
    ensures node.Struct? && Holds(t, node)
    ensures p <= |Print(t) + z| && (Print(t) + z)[p..] == Print(node) + z'
    decreases t, 0
  {
    var head, inner := "[" + Decimal(t.count) + " x ", Print(t.elem);
    ArrayParts(t, z);
    NumeralNoBrace(t.count);
    InMiddle(head, inner, "]", p);
    node, z' := BraceStartsStruct(t.elem, "]" + z, p - |head|);
    Shift(head, inner, "]" + z, p);
  }

  lemma ArrayParts(t: Type, z: string)
    requires t.Array?
    ensures var head, inner := "[" + Decimal(t.count) + " x ", Print(t.elem);
            Print(t) == head + (inner + "]") && Print(t) + z == head + (inner + ("]" + z))
  {
    var d, inner := Decimal(t.count), Print(t.elem);
    assert "[" + (d + (" x " + (inner + "]"))) == ("[" + d + " x ") + (inner + "]");
    assert ("[" + d + " x ") + (inner + "]") + z == ("[" + d + " x ") + (inner + ("]" + z));
  }

  lemma InMiddle(head: string, inner: string, tail: string, p: nat)
    requires p < |head + (inner + tail)| && (head + (inner + tail))[p] == '{'
    requires NoBrace(head) && NoBrace(tail)
    ensures |head| <= p < |head| + |inner| && inner[p - |head|] == '{'
  {
  }

  lemma VectorNoBrace(t: Type, p: nat)
    requires t.Vector? && p < |Print(t)|
    ensures Print(t)[p] != '{'
  {
    NumeralNoBrace(t.count);
    NameChars(t.scalar);
    assert NoBrace(Name(t.scalar));
    assert NoBrace("<" + (Decimal(t.count) + (" x " + (Name(t.scalar) + ">"))));
  }

  lemma Shift(head: string, a: string, b: string, p: nat)
    requires |head| <= p <= |head| + |a| + |b|
    ensures (head + (a + b))[p..] == (a + b)[p - |head|..]
  {
  }

  lemma SameBehindOpening(fields: seq<Type>, p: nat)
    requires fields != [] && 0 < p < |Print(Struct(fields))| && Print(Struct(fields))[p] == '{'
    ensures 2 <= p < |PrintRest(fields)| && PrintRest(fields)[p] == '{'
  {
    AmongText(fields);
    var x := Print(fields[0]) + PrintRest(fields[1..]);
    assert ("{ " + x)[p] == (if p == 1 then ' ' else x[p - 2]);
    assert p >= 2 ==> (", " + x)[p] == x[p - 2];
  }

  lemma Reopen(fields: seq<Type>, z: string, p: nat)
    requires fields != [] && 2 <= p < |PrintRest(fields)|
    ensures |PrintRest(fields)| == |Print(Struct(fields))|
    ensures (Print(Struct(fields)) + z)[p..] == (PrintRest(fields) + z)[p..]
  {
    AmongText(fields);
    var x := Print(fields[0]) + PrintRest(fields[1..]);
    assert ("{ " + x + z)[p..] == (x + z)[p - 2..];
    assert (", " + x + z)[p..] == (x + z)[p - 2..];
  }

  lemma {:induction false} BraceAmong(fields: seq<Type>, z: string, p: nat) returns (node: Type, z': string)
    requires p < |PrintRest(fields)| && PrintRest(fields)[p] == '{'
    ensures node.Struct? && AnyHolds(fields, node)
    ensures p <= |PrintRest(fields) + z| && (PrintRest(fields) + z)[p..] == Print(node) + z'
    decreases fields, 0
  {
    assert fields != [];
    var first, rest := Print(fields[0]), PrintRest(fields[1..]);
    RestText(fields, z);
    assert PrintRest(fields)[p] == (", " + (first + rest))[p];
    if p < 2 + |first| {
      assert p >= 2 && first[p - 2] == '{';
      node, z' := BraceStartsStruct(fields[0], rest + z, p - 2);
      Shift(", ", first, rest + z, p);
    } else {
      assert rest[p - 2 - |first|] == '{';
      node, z' := BraceAmong(fields[1..], z, p - 2 - |first|);
      Shift(", " + first, rest, z, p);
      Assoc(", ", first, rest + z);
    }
  }

  // ----- the textual test is exact -----------------------------------------------------

  /** `lay in agg` on printed types says whether the struct is a node of the aggregate: a state held
      inline is neither missed nor invented. Text before the aggregate, such as a linkage, changes
      nothing as long as it holds no brace. */
  lemma InlineTestExact(t: Type, s: Type, before: string)
    requires s.Struct? && NoBrace(before)
    ensures InText(Print(s), before + Print(t)) <==> Holds(t, s)
  {
    if Holds(t, s) {
      var pre, post := HeldIsPrinted(t, s);
      Wrap(before, pre, Print(s), post, "");
      assert Print(t) + "" == Print(t);
      InTextAt(Print(s), before + Print(t), before + pre, post + "");
    }
    if InText(Print(s), before + Print(t)) {
      InlineFound(t, s, before);
    }
  }

  lemma InlineFound(t: Type, s: Type, before: string)
    requires s.Struct? && NoBrace(before) && InText(Print(s), before + Print(t))
    ensures Holds(t, s)
  {
    var p, rest := Locate(t, s, before);
    hide *;
    var node, z := StructFrom(t, p);
    PrintUnique(s, node, rest, z);
  }

  /** Where in `t`'s own text the struct's text was found. */
  lemma Locate(t: Type, s: Type, before: string) returns (p: nat, rest: string)
    requires s.Struct? && NoBrace(before) && InText(Print(s), before + Print(t))
    ensures p < |Print(t)| && Print(t)[p] == '{' && Print(t)[p..] == Print(s) + rest
  {
    var u := before + Print(t);
    var i := Find(u, Print(s), 0).value;
    hide *;
    BraceAt(s, u, i);
    Within(before, Print(t), i);
    OccurrenceTail(u, Print(s), i);
    p, rest := i - |before|, u[i + |Print(s)|..];
  }

  lemma StructFrom(t: Type, p: nat) returns (node: Type, z: string)
    requires p < |Print(t)| && Print(t)[p] == '{'
    ensures node.Struct? && Holds(t, node) && Print(t)[p..] == Print(node) + z
  {
    hide *;
    node, z := BraceStartsStruct(t, "", p);
    assert Print(t) + "" == Print(t);
  }

  lemma BraceAt(s: Type, u: string, i: nat)
    requires s.Struct? && OccursAt(u, Print(s), i)
    ensures i < |u| && u[i] == '{'
  {
    FirstChar(s);
    OccursStart(u, Print(s), i);
  }

  lemma Within(before: string, x: string, i: nat)
    requires NoBrace(before) && i < |before + x| && (before + x)[i] == '{'
    ensures |before| <= i && x[i - |before|] == '{' && x[i - |before|..] == (before + x)[i..]
  {
  }

  lemma OccurrenceTail(s: string, pat: string, i: nat)
    requires OccursAt(s, pat, i)
    ensures s[i..] == pat + s[i + |pat|..]
  {
  }

  // ----- the functions that take a type by value ---------------------------------------

  const NOUNDEF := "} noundef"

  /** The literal struct type of a by-value parameter, or None. */
  function Aggregate(param: string): Option<string> {
    if param != "" && param[0] == '{' && InText(NOUNDEF, param) then
      Some(param[..Find(param, NOUNDEF, 0).value + 1])
    else None
  }

  /** `name` stands in `symbol` as a whole word. */
  predicate Mentions(symbol: string, name: string) {
    exists i: nat | i <= |symbol| ::
      && OccursAt(symbol, name, i)
      && (i == 0 || !IsWord(symbol[i - 1]))
      && (i + |name| == |symbol| || !IsWord(symbol[i + |name|]))
  }

  datatype Define = Define(symbol: string, returned: string, params: seq<string>)

  datatype Copy = Copy(symbol: string, index: nat, returned: bool, embedded: bool)

  /** What parameter `i` of `d` adds to the findings: the type itself, in a function whose symbol names
      it, or a struct whose text holds it, whatever the symbol names. */
  function CopyOf(d: Define, i: nat, named: bool, lays: set<string>): Option<Copy>
    requires i < |d.params|
  {
    match Aggregate(d.params[i])
    case None => None
    case Some(agg) =>
      if agg in lays then
        if named then Some(Copy(d.symbol, i, InText(agg, d.returned), false)) else None
      else if exists lay | lay in lays :: InText(lay, agg) then
        Some(Copy(d.symbol, i, InText(agg, d.returned), true))
      else None
  }

  function ParamCopies(d: Define, i: nat, named: bool, lays: set<string>, out: seq<Copy>): seq<Copy>
    requires i <= |d.params|
    decreases |d.params| - i
  {
    if i == |d.params| then out
    else
      var c := CopyOf(d, i, named, lays);
      ParamCopies(d, i + 1, named, lays, if c.Some? then out + [c.value] else out)
  }

  function AllCopies(defs: seq<Define>, name: string, lays: set<string>, out: seq<Copy>): seq<Copy> {
    if defs == [] then out
    else AllCopies(defs[1..], name, lays, ParamCopies(defs[0], 0, Mentions(defs[0].symbol, name), lays, out))
  }

  method Copies(defs: seq<Define>, name: string, lays: set<string>) returns (out: seq<Copy>)
    ensures out == AllCopies(defs, name, lays, [])
    ensures forall c :: c in out <==> IsCopy(defs, name, lays, c)
  {
    out := [];
    for k := 0 to |defs|
      invariant AllCopies(defs, name, lays, []) == AllCopies(defs[k..], name, lays, out)
    {
      var d := defs[k];
      assert defs[k..][0] == d && defs[k..][1..] == defs[k + 1..];
      var named := Mentions(d.symbol, name);
      ghost var found := ParamCopies(d, 0, named, lays, out);
      for i := 0 to |d.params|
        invariant found == ParamCopies(d, i, named, lays, out)
      {
        var c := CopyOf(d, i, named, lays);
        if c.Some? {
          out := out + [c.value];
        }
      }
    }
    forall c
      ensures c in out <==> IsCopy(defs, name, lays, c)
    {
      CopiesExact(defs, name, lays, [], c);
    }
  }

  /** `c` is what some parameter of some function adds. */
  ghost predicate IsCopy(defs: seq<Define>, name: string, lays: set<string>, c: Copy) {
    exists d :: d in defs && FromParam(d, 0, Mentions(d.symbol, name), lays, c)
  }

  ghost predicate FromParam(d: Define, from: nat, named: bool, lays: set<string>, c: Copy) {
    from <= c.index < |d.params| && CopyOf(d, c.index, named, lays) == Some(c)
  }

  lemma {:induction false} ParamCopiesExact(d: Define, i: nat, named: bool, lays: set<string>, out: seq<Copy>, c: Copy)
    requires i <= |d.params|
    ensures c in ParamCopies(d, i, named, lays, out) <==> c in out || FromParam(d, i, named, lays, c)
    decreases |d.params| - i
  {
    if i < |d.params| {
      var got := CopyOf(d, i, named, lays);
      var out' := if got.Some? then out + [got.value] else out;
      ParamCopiesExact(d, i + 1, named, lays, out', c);
      assert got.Some? ==> got.value.index == i;
    }
  }

  lemma {:induction false} CopiesExact(defs: seq<Define>, name: string, lays: set<string>, out: seq<Copy>, c: Copy)
    ensures c in AllCopies(defs, name, lays, out) <==> c in out || IsCopy(defs, name, lays, c)
    decreases |defs|
  {
    if defs != [] {
      var d := defs[0];
      var out' := ParamCopies(d, 0, Mentions(d.symbol, name), lays, out);
      ParamCopiesExact(d, 0, Mentions(d.symbol, name), lays, out, c);
      CopiesExact(defs[1..], name, lays, out', c);
      assert forall e :: e in defs <==> e == d || e in defs[1..];
    }
  }

  // ----- read as types -------------------------------------------------------------------

  lemma {:induction false} NoN(t: Type)
    ensures 'n' !in Print(t)
    decreases t, 0
  {
    match t
    case Plain(s) => NameChars(s);
    case Vector(n, s) =>
      NameChars(s);
      assert AllDigits(Decimal(n));
    case Array(n, elem) =>
      NoN(elem);
      assert AllDigits(Decimal(n));
    case Struct(fields) =>
      if fields != [] {
        NoN(fields[0]);
        NoNRest(fields[1..]);
      }
  }

  lemma {:induction false} NoNRest(fields: seq<Type>)
    ensures 'n' !in PrintRest(fields)
    decreases fields, 0
  {
    if fields != [] {
      NoN(fields[0]);
      NoNRest(fields[1..]);
    }
  }

  /** A parameter passed by value, as the IR writes it. */
  function Param(t: Type, attributes: string): string {
    Print(t) + (" noundef" + attributes)
  }

  lemma {:induction false} EndsInBrace(fields: seq<Type>)
    ensures |PrintRest(fields)| >= 2 && PrintRest(fields)[|PrintRest(fields)| - 1] == '}'
  {
    if fields != [] {
      EndsInBrace(fields[1..]);
    }
  }

  lemma StructEndsInBrace(t: Type)
    requires t.Struct?
    ensures |Print(t)| >= 2 && Print(t)[|Print(t)| - 1] == '}'
  {
    if t.fields != [] {
      EndsInBrace(t.fields[1..]);
    }
  }

  /** The aggregate read off a parameter is exactly its type's text, when it is a struct. */
  lemma AggregateOfParam(t: Type, attributes: string)
    requires t.Struct?
    ensures Aggregate(Param(t, attributes)) == Some(Print(t))
  {
    var p, s := Print(t), Param(t, attributes);
    StructEndsInBrace(t);
    FirstChar(t);
    NoN(t);
    var i := |p| - 1;
    LastBraceThen(p, attributes);
    forall j: nat | j < i
      ensures !OccursAt(s, NOUNDEF, j)
    {
      ThirdChar(s, j);
      assert s[j + 2] == if j + 2 < |p| then p[j + 2] else ' ';
    }
    FindIs(s, NOUNDEF, 0, i);
    assert s[..i + 1] == p;
  }

  lemma LastBraceThen(p: string, attributes: string)
    requires p != "" && p[|p| - 1] == '}'
    ensures OccursAt(p + (" noundef" + attributes), NOUNDEF, |p| - 1)
  {
    assert p == p[..|p| - 1] + "}";
    assert p + (" noundef" + attributes) == p[..|p| - 1] + (NOUNDEF + attributes);
  }

  lemma ThirdChar(s: string, j: nat)
    ensures OccursAt(s, NOUNDEF, j) ==> j + 2 < |s| && s[j + 2] == 'n'
  {
    if OccursAt(s, NOUNDEF, j) {
      assert s[j..j + 9][2] == s[j + 2];
    }
  }

  lemma NoAggregate(t: Type, attributes: string)
    requires !t.Struct?
    ensures Aggregate(Param(t, attributes)) == None
  {
    FirstChar(t);
    assert Param(t, attributes)[0] == Print(t)[0];
  }

  function Printed(types: set<Type>): set<string> {
    set t | t in types :: Print(t)
  }

  /** What `copies` says of a function whose parameters and result are types, in terms of the types: a
      parameter is reported as the type itself exactly when it is one of them and the symbol names it,
      as holding it inline exactly when it is not one of them but one is nested in it, and as stored
      back exactly when the result type holds the parameter's type. */
  lemma CopyOfTyped(d: Define, i: nat, named: bool, lays: set<Type>, t: Type, attributes: string, linkage: string,
      result: Type)
    requires i < |d.params| && d.params[i] == Param(t, attributes)
    requires NoBrace(linkage) && d.returned == linkage + Print(result)
    requires forall s | s in lays :: s.Struct?
    ensures CopyOf(d, i, named, Printed(lays)) ==
              if !t.Struct? then None
              else if t in lays then if named then Some(Copy(d.symbol, i, Holds(result, t), false)) else None
              else if exists s | s in lays :: Holds(t, s) then Some(Copy(d.symbol, i, Holds(result, t), true))
              else None
  {
    if t.Struct? {
      AggregateOfParam(t, attributes);
      InlineTestExact(result, t, linkage);
      PrintedExact(t, lays);
      AnyInlineExact(t, lays);
    } else {
      NoAggregate(t, attributes);
    }
  }

  lemma PrintedExact(t: Type, types: set<Type>)
    ensures Print(t) in Printed(types) <==> t in types
  {
    forall s | s in types
      ensures Print(s) == Print(t) <==> s == t
    {
      PrintInjective(s, t);
    }
  }

  lemma AnyInlineExact(t: Type, lays: set<Type>)
    requires forall s | s in lays :: s.Struct?
    ensures (exists lay | lay in Printed(lays) :: InText(lay, Print(t))) <==> exists s | s in lays :: Holds(t, s)
  {
    forall s | s in lays
      ensures InText(Print(s), Print(t)) <==> Holds(t, s)
    {
      InlineTestExact(t, s, "");
      assert "" + Print(t) == Print(t);
    }
    if s :| s in lays && Holds(t, s) {
      assert Print(s) in Printed(lays);
    }
  }
}
