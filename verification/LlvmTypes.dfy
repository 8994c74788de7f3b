/** LLVM's literal types as scripts/copyback_guard.py meets them in IR text, their printed form, and
    what finding one printed type inside another says about the types. */
module LlvmTypes {
  import opened Text

  datatype Scalar = I1 | I8 | I16 | I32 | I64 | I128 | Ptr | Float | Double

  datatype Type =
    | Plain(scalar: Scalar)
    | Struct(fields: seq<Type>)
    | Array(count: nat, elem: Type)
    | Vector(count: nat, scalar: Scalar)

  function Name(s: Scalar): string {
    match s
    case I1 => "i1"
    case I8 => "i8"
    case I16 => "i16"
    case I32 => "i32"
    case I64 => "i64"
    case I128 => "i128"
    case Ptr => "ptr"
    case Float => "float"
    case Double => "double"
  }

  /** LLVM's text of a type: `{ i64, [4 x ptr] }`, `<4 x float>`, `{}`. */
  function Print(t: Type): string
    decreases t, 0
  {
    match t
    case Plain(s) => Name(s)
    case Struct(fields) => if fields == [] then "{}" else "{ " + (Print(fields[0]) + PrintRest(fields[1..]))
    case Array(n, elem) => "[" + (Decimal(n) + (" x " + (Print(elem) + "]")))
    case Vector(n, s) => "<" + (Decimal(n) + (" x " + (Name(s) + ">")))
  }

  /** The fields behind the first, and the closing brace. */
  function PrintRest(fields: seq<Type>): string
    decreases fields, 0
  {
    if fields == [] then " }" else ", " + (Print(fields[0]) + PrintRest(fields[1..]))
  }

  // ----- printing can be undone ------------------------------------------------------

  /** A character of a scalar's name. */
  predicate IsNameChar(c: char) {
    'a' <= c <= 'z' || '0' <= c <= '9'
  }

  /** Text that cannot lengthen a scalar's name before it. */
  predicate Stops(x: string) {
    x == "" || !IsNameChar(x[0])
  }

  lemma NameChars(s: Scalar)
    ensures Name(s) != "" && 'a' <= Name(s)[0] <= 'z'
    ensures forall i :: 0 <= i < |Name(s)| ==> IsNameChar(Name(s)[i]) && Name(s)[i] != 'n'
  {
  }

  lemma NameInjective(s: Scalar, t: Scalar)
    requires Name(s) == Name(t)
    ensures s == t
  {
    assert |Name(s)| == |Name(t)|;
    assert Name(s)[0] == Name(t)[0] && Name(s)[1] == Name(t)[1];
  }

  lemma NameUnique(s: Scalar, t: Scalar, x: string, y: string)
    requires Name(s) + x == Name(t) + y
    requires Stops(x) && Stops(y)
    ensures s == t && x == y
  {
    NameChars(s);
    NameChars(t);
    var u, v := Name(s) + x, Name(t) + y;
    assert forall i :: 0 <= i < |Name(s)| ==> u[i] == Name(s)[i];
    assert forall i :: 0 <= i < |Name(t)| ==> v[i] == Name(t)[i];
    assert x != "" ==> u[|Name(s)|] == x[0];
    assert y != "" ==> v[|Name(t)|] == y[0];
    assert |Name(s)| == |Name(t)|;
    assert Name(s) == u[..|Name(s)|] == Name(t);
    assert x == u[|Name(s)|..] == y;
    NameInjective(s, t);
  }

  /** The kinds of type are told apart by how they start. */
  lemma FirstChar(t: Type)
    ensures Print(t) != ""
    ensures match t
            case Plain(s) => 'a' <= Print(t)[0] <= 'z'
            case Struct(_) => Print(t)[0] == '{'
            case Array(_, _) => Print(t)[0] == '['
            case Vector(_, _) => Print(t)[0] == '<'
  {
    if t.Plain? {
      NameChars(t.scalar);
    }
  }

  lemma CutHead(h: string, x: string, y: string)
    requires h + x == h + y
    ensures x == y
  {
    assert (h + x)[|h|..] == x && (h + y)[|h|..] == y;
  }

  /** A type at the head of a text is read off it in one way only. Only a scalar needs to know that
      its name goes no further; a brace, a bracket or an angle closes itself. */
  lemma {:induction false} PrintUnique(a: Type, b: Type, x: string, y: string)
    requires Print(a) + x == Print(b) + y
    requires a.Plain? || b.Plain? ==> Stops(x) && Stops(y)
    ensures a == b && x == y
    decreases a, 0
  {
    SameKind(a, b, x, y);
    match a
    case Plain(s) => NameUnique(s, b.scalar, x, y);
    case Struct(fields) => StructUnique(a, b, x, y);
    case Array(n, elem) =>
      ArrayText(a, x);
      ArrayText(b, y);
      CutHead("[", Decimal(n) + [' '] + ("x " + (Print(elem) + ("]" + x))),
              Decimal(b.count) + [' '] + ("x " + (Print(b.elem) + ("]" + y))));
      DecimalPrefix(n, b.count, ' ', ' ', "x " + (Print(elem) + ("]" + x)), "x " + (Print(b.elem) + ("]" + y)));
      CutHead("x ", Print(elem) + ("]" + x), Print(b.elem) + ("]" + y));
      PrintUnique(elem, b.elem, "]" + x, "]" + y);
      CutHead("]", x, y);
    case Vector(n, s) =>
      VectorText(a, x);
      VectorText(b, y);
      CutHead("<", Decimal(n) + [' '] + ("x " + (Name(s) + (">" + x))),
              Decimal(b.count) + [' '] + ("x " + (Name(b.scalar) + (">" + y))));
      DecimalPrefix(n, b.count, ' ', ' ', "x " + (Name(s) + (">" + x)), "x " + (Name(b.scalar) + (">" + y)));
      CutHead("x ", Name(s) + (">" + x), Name(b.scalar) + (">" + y));
      NameUnique(s, b.scalar, ">" + x, ">" + y);
      CutHead(">", x, y);
  }

  lemma SameKind(a: Type, b: Type, x: string, y: string)
    requires Print(a) + x == Print(b) + y
    ensures a.Plain? == b.Plain? && a.Struct? == b.Struct? && a.Array? == b.Array? && a.Vector? == b.Vector?
  {
    FirstChar(a);
    FirstChar(b);
    assert (Print(a) + x)[0] == Print(a)[0] && (Print(b) + y)[0] == Print(b)[0];
  }

  lemma ArrayText(t: Type, x: string)
    requires t.Array?
    ensures Print(t) + x == "[" + (Decimal(t.count) + [' '] + ("x " + (Print(t.elem) + ("]" + x))))
  {
    CountedText("[", Decimal(t.count), Print(t.elem), "]", x);
  }

  lemma CountedText(open: string, d: string, p: string, close: string, x: string)
    ensures (open + (d + (" x " + (p + close)))) + x == open + (d + [' '] + ("x " + (p + (close + x))))
  {
    Assoc(open, d + (" x " + (p + close)), x);
    Assoc(d, " x " + (p + close), x);
    Assoc(" x ", p + close, x);
    Assoc(p, close, x);
    Spaced(d, p + (close + x));
  }

  lemma Spaced(d: string, y: string)
    ensures d + (" x " + y) == d + [' '] + ("x " + y)
  {
    assert " x " + y == [' '] + ("x " + y);
    Assoc(d, [' '], "x " + y);
  }

  lemma VectorText(t: Type, x: string)
    requires t.Vector?
    ensures Print(t) + x == "<" + (Decimal(t.count) + [' '] + ("x " + (Name(t.scalar) + (">" + x))))
  {
    CountedText("<", Decimal(t.count), Name(t.scalar), ">", x);
  }

  lemma StructText(t: Type, x: string)
    requires t.Struct?
    ensures t.fields == [] ==> Print(t) + x == "{}" + x
    ensures t.fields != [] ==> Print(t) + x == "{ " + (Print(t.fields[0]) + (PrintRest(t.fields[1..]) + x))
  {
    if t.fields != [] {
      var p, r := Print(t.fields[0]), PrintRest(t.fields[1..]);
      assert ("{ " + (p + r)) + x == "{ " + (p + (r + x));
    }
  }

  lemma RestText(fields: seq<Type>, x: string)
    ensures fields == [] ==> PrintRest(fields) + x == " }" + x
    ensures fields != [] ==> PrintRest(fields) + x == ", " + (Print(fields[0]) + (PrintRest(fields[1..]) + x))
    ensures Stops(PrintRest(fields) + x)
  {
    if fields != [] {
      var p, r := Print(fields[0]), PrintRest(fields[1..]);
      assert (", " + (p + r)) + x == ", " + (p + (r + x));
    }
  }

  lemma {:induction false} StructUnique(a: Type, b: Type, x: string, y: string)
    requires a.Struct? && b.Struct? && Print(a) + x == Print(b) + y
    ensures a == b && x == y
    decreases a, 0, 0
  {
    var f, g := a.fields, b.fields;
    StructText(a, x);
    StructText(b, y);
    assert (Print(a) + x)[1] == (if f == [] then '}' else ' ');
    assert (Print(b) + y)[1] == (if g == [] then '}' else ' ');
    if f == [] {
      CutHead("{}", x, y);
    } else {
      CutHead("{ ", Print(f[0]) + (PrintRest(f[1..]) + x), Print(g[0]) + (PrintRest(g[1..]) + y));
      RestText(f[1..], x);
      RestText(g[1..], y);
      PrintUnique(f[0], g[0], PrintRest(f[1..]) + x, PrintRest(g[1..]) + y);
      RestUnique(f[1..], g[1..], x, y);
      assert f == [f[0]] + f[1..] && g == [g[0]] + g[1..];
    }
  }

  lemma {:induction false} RestUnique(f: seq<Type>, g: seq<Type>, x: string, y: string)
    requires PrintRest(f) + x == PrintRest(g) + y
    ensures f == g && x == y
    decreases f, 0
  {
    RestText(f, x);
    RestText(g, y);
    assert (PrintRest(f) + x)[0] == (if f == [] then ' ' else ',');
    assert (PrintRest(g) + y)[0] == (if g == [] then ' ' else ',');
    if f == [] {
      CutHead(" }", x, y);
    } else {
      CutHead(", ", Print(f[0]) + (PrintRest(f[1..]) + x), Print(g[0]) + (PrintRest(g[1..]) + y));
      RestText(f[1..], x);
      RestText(g[1..], y);
      PrintUnique(f[0], g[0], PrintRest(f[1..]) + x, PrintRest(g[1..]) + y);
      RestUnique(f[1..], g[1..], x, y);
      assert f == [f[0]] + f[1..] && g == [g[0]] + g[1..];
    }
  }

  /** Two types print alike only if they are one type. */
  lemma PrintInjective(a: Type, b: Type)
    ensures Print(a) == Print(b) <==> a == b
  {
    if Print(a) == Print(b) {
      assert Print(a) + "" == Print(b) + "";
      PrintUnique(a, b, "", "");
    }
  }
}
