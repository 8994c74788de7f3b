/** `size_align` of scripts/copyback_guard.py: the size and alignment of a printed type, and the layout
    they describe. */
module Layout {
  import opened Text
  import opened LlvmTypes

  datatype Extent = Extent(size: nat, align: nat)

  /** The source's table: bytes and alignment of a scalar. */
  function ScalarExtent(s: Scalar): (e: Extent)
    ensures e.align > 0 && e.size == e.align
  {
    match s
    case I1 | I8 => Extent(1, 1)
    case I16 => Extent(2, 2)
    case I32 | Float => Extent(4, 4)
    case I64 | Ptr | Double => Extent(8, 8)
    case I128 => Extent(16, 16)
  }

  // ----- arithmetic ----------------------------------------------------------------------

  predicate IsMultiple(x: nat, a: nat) {
    a > 0 && x % a == 0
  }

  function Times(n: nat, s: nat): nat {
    n * s
  }

  /** The first multiple of `a` at or above `n`, as the source computes it. */
  function RoundUp(n: nat, a: nat): nat
    requires a > 0
  {
    (n + a - 1) / a * a
  }

  lemma TimesAtLeast(k: nat, a: nat)
    requires k >= 1
    ensures k * a >= a
  {
    assert k * a == (k - 1) * a + a;
  }

  lemma Distribute(q: int, d: int, a: int)
    ensures q * a - d * a == (q - d) * a
  {
  }

  lemma QuotientUnique(q: nat, d: nat, m: nat, a: nat)
    requires q * a == d * a + m && m < a
    ensures q == d && m == 0
  {
    Distribute(q, d, a);
    if q > d {
      TimesAtLeast(q - d, a);
    } else if d > q {
      Distribute(d, q, a);
      TimesAtLeast(d - q, a);
    }
  }

  lemma MultipleOf(q: nat, a: nat)
    requires a > 0
    ensures IsMultiple(q * a, a)
  {
    var x := q * a;
    assert x == (x / a) * a + x % a;
    QuotientUnique(q, x / a, x % a, a);
  }

  lemma Quotient(x: nat, a: nat) returns (q: nat)
    requires IsMultiple(x, a)
    ensures x == q * a
  {
    q := x / a;
  }

  lemma RoundUpIs(n: nat, a: nat)
    requires a > 0
    ensures IsMultiple(RoundUp(n, a), a) && n <= RoundUp(n, a) < n + a
  {
    var q := (n + a - 1) / a;
    assert n + a - 1 == q * a + (n + a - 1) % a;
    MultipleOf(q, a);
  }

  lemma TimesMultiple(n: nat, s: nat, a: nat)
    requires IsMultiple(s, a)
    ensures IsMultiple(Times(n, s), a)
  {
    var q := Quotient(s, a);
    Associate(n, q, a);
    MultipleOf(n * q, a);
  }

  lemma Associate(n: nat, q: nat, a: nat)
    ensures n * (q * a) == (n * q) * a
  {
  }

  lemma MultipleTrans(c: nat, b: nat, a: nat)
    requires IsMultiple(b, a) && IsMultiple(c, b)
    ensures IsMultiple(c, a)
  {
    var p := Quotient(b, a);
    var q := Quotient(c, b);
    Associate(q, p, a);
    MultipleOf(q * p, a);
  }

  lemma SumMultiple(x: nat, y: nat, a: nat)
    requires IsMultiple(x, a) && IsMultiple(y, a)
    ensures IsMultiple(x + y, a)
  {
    var p := Quotient(x, a);
    var q := Quotient(y, a);
    assert x + y == (p + q) * a;
    MultipleOf(p + q, a);
  }

  lemma SelfMultiple(a: nat)
    requires a > 0
    ensures IsMultiple(a, a) && IsMultiple(0, a)
  {
    MultipleOf(1, a);
    MultipleOf(0, a);
  }

  lemma ElementFits(n: nat, i: nat, s: nat)
    requires i < n
    ensures Times(i, s) + s <= Times(n, s)
  {
    Distribute(n, i, s);
    TimesAtLeast(n - i, s);
  }

  predicate PowerOfTwo(n: nat)
    decreases n
  {
    n == 1 || (n > 1 && n % 2 == 0 && PowerOfTwo(n / 2))
  }

  lemma {:induction false} PowerDivides(a: nat, b: nat)
    requires PowerOfTwo(a) && PowerOfTwo(b) && a <= b
    ensures IsMultiple(b, a)
    decreases b
  {
    if a > 1 {
      PowerDivides(a / 2, b / 2);
      var q := Quotient(b / 2, a / 2);
      Twice(q, a / 2);
      MultipleOf(q, a);
    }
  }

  lemma Twice(q: nat, h: nat)
    ensures 2 * (q * h) == q * (2 * h)
  {
  }

  // ----- sizes and alignments --------------------------------------------------------------

  /** Vectors have elements; the source divides by zero on one that has none. */
  predicate Sized(t: Type)
    decreases t, 1
  {
    match t
    case Plain(_) => true
    case Struct(fields) => AllSized(fields)
    case Array(_, elem) => Sized(elem)
    case Vector(n, _) => n > 0
  }

  predicate AllSized(fields: seq<Type>)
    decreases fields, 0
  {
    fields == [] || (Sized(fields[0]) && AllSized(fields[1..]))
  }

  function ExtentOf(t: Type): (e: Extent)
    requires Sized(t)
    ensures e.align > 0
    decreases t, 1
  {
    match t
    case Plain(s) => ScalarExtent(s)
    case Struct(fields) =>
      var e := Fields(fields, Extent(0, 1));
      Extent(RoundUp(e.size, e.align), e.align)
    case Array(n, elem) => Extent(Times(n, ExtentOf(elem).size), ExtentOf(elem).align)
    case Vector(n, s) => VectorExtent(n, s)
  }

  function VectorExtent(n: nat, s: Scalar): (e: Extent)
    requires n > 0
    ensures e.align > 0
  {
    var es := ScalarExtent(s).size;
    TimesAtLeast(n, es);
    Extent(Times(n, es), Times(n, es))
  }

  function Max(a: nat, b: nat): nat {
    if a < b then b else a
  }

  /** One field more: padded to its alignment, then placed. */
  function Place(at: Extent, f: Extent): (e: Extent)
    requires f.align > 0
  {
    Extent(RoundUp(at.size, f.align) + f.size, Max(at.align, f.align))
  }

  function Fields(fields: seq<Type>, at: Extent): (e: Extent)
    requires AllSized(fields) && at.align > 0
    ensures e.align >= at.align
    decreases fields, 0
  {
    if fields == [] then at else Fields(fields[1..], Place(at, ExtentOf(fields[0])))
  }

  // ----- types the source cannot place -------------------------------------------------------

  /** The source's measurement of any type: None where it divides by a field's alignment of zero. */
  function Measured(t: Type): Option<Extent>
    decreases t, 1
  {
    match t
    case Plain(s) => Some(ScalarExtent(s))
    case Struct(fields) =>
      (match MeasuredFields(fields, Extent(0, 1))
       case None => None
       case Some(e) => Some(Extent(RoundUp(e.size, e.align), e.align)))
    case Array(n, elem) =>
      (match Measured(elem)
       case None => None
       case Some(e) => Some(Extent(Times(n, e.size), e.align)))
    case Vector(n, s) => var z := Times(n, ScalarExtent(s).size); Some(Extent(z, z))
  }

  function MeasuredFields(fields: seq<Type>, at: Extent): (e: Option<Extent>)
    requires at.align > 0
    ensures e.Some? ==> e.value.align >= at.align
    decreases fields, 0
  {
    if fields == [] then Some(at)
    else
      match Measured(fields[0])
      case None => None
      case Some(f) => if f.align == 0 then None else MeasuredFields(fields[1..], Place(at, f))
  }

  /** A vector without elements, or an array of such. */
  predicate NoAlignment(t: Type) {
    match t
    case Vector(n, _) => n == 0
    case Array(_, elem) => NoAlignment(elem)
    case _ => false
  }

  /** No struct has a field without alignment. */
  predicate Placeable(t: Type)
    decreases t, 1
  {
    match t
    case Struct(fields) => AllPlaceable(fields)
    case Array(_, elem) => Placeable(elem)
    case _ => true
  }

  predicate AllPlaceable(fields: seq<Type>)
    decreases fields, 0
  {
    fields == [] || (Placeable(fields[0]) && !NoAlignment(fields[0]) && AllPlaceable(fields[1..]))
  }

  /** The source measures a type exactly when no struct in it has a field without alignment. */
  lemma {:induction false} MeasuredExactly(t: Type)
    ensures Measured(t).Some? <==> Placeable(t)
    ensures Measured(t).Some? ==> (Measured(t).value.align == 0 <==> NoAlignment(t))
    decreases t, 1
  {
    match t
    case Plain(_) =>
    case Struct(fields) => FieldsExactly(fields, Extent(0, 1));
    case Array(_, elem) => MeasuredExactly(elem);
    case Vector(n, s) =>
      if n > 0 {
        TimesAtLeast(n, ScalarExtent(s).size);
      }
  }

  lemma {:induction false} FieldsExactly(fields: seq<Type>, at: Extent)
    requires at.align > 0
    ensures MeasuredFields(fields, at).Some? <==> AllPlaceable(fields)
    decreases fields, 0
  {
    hide Place;
    if fields != [] {
      MeasuredExactly(fields[0]);
      var f := Measured(fields[0]);
      if f.Some? && f.value.align > 0 {
        PlaceIs(at, f.value);
        FieldsExactly(fields[1..], Place(at, f.value));
      }
    }
  }

  /** Where every vector has elements, that is the extent the results below are about. */
  lemma {:induction false} MeasuredIsExtent(t: Type)
    requires Sized(t)
    ensures Measured(t) == Some(ExtentOf(t))
    decreases t, 1
  {
    match t
    case Plain(_) =>
    case Struct(fields) => MeasuredFieldsAre(fields, Extent(0, 1));
    case Array(_, elem) => MeasuredIsExtent(elem);
    case Vector(_, _) =>
  }

  lemma {:induction false} MeasuredFieldsAre(fields: seq<Type>, at: Extent)
    requires AllSized(fields) && at.align > 0
    ensures MeasuredFields(fields, at) == Some(Fields(fields, at))
    decreases fields, 0
  {
    hide Place;
    if fields != [] {
      MeasuredIsExtent(fields[0]);
      PlaceIs(at, ExtentOf(fields[0]));
      MeasuredFieldsAre(fields[1..], Place(at, ExtentOf(fields[0])));
    }
  }

  // ----- fields are aligned, in order and apart ------------------------------------------

  /** Where each field starts when the first may start at `at`. */
  function Offsets(fields: seq<Type>, at: nat): (o: seq<nat>)
    requires AllSized(fields)
    ensures |o| == |fields|
    decreases |fields|
  {
    if fields == [] then []
    else
      var f := ExtentOf(fields[0]);
      var start := RoundUp(at, f.align);
      [start] + Offsets(fields[1..], start + f.size)
  }

  lemma {:induction false} EachSized(fields: seq<Type>, i: nat)
    requires AllSized(fields) && i < |fields|
    ensures Sized(fields[i])
    decreases |fields|
  {
    if i > 0 {
      EachSized(fields[1..], i - 1);
    }
  }

  /** Field `i` starts at a multiple of its alignment, not before `at`, ends where the next may start and
      within the size the fold arrives at; and the fold's alignment is no smaller than the field's. */
  ghost predicate Placed(fields: seq<Type>, at: Extent, i: nat) {
    && AllSized(fields) && at.align > 0 && i < |fields| && Sized(fields[i])
    && var f, o, e := ExtentOf(fields[i]), Offsets(fields, at.size), Fields(fields, at);
    && IsMultiple(o[i], f.align) && at.size <= o[i]
    && o[i] + f.size <= (if i + 1 < |fields| then o[i + 1] else e.size) <= e.size
    && f.align <= e.align
  }

  /** Every field is placed: in order, apart, aligned and inside. */
  lemma {:induction false} FieldPlaced(fields: seq<Type>, at: Extent, i: nat)
    requires AllSized(fields) && at.align > 0 && i < |fields|
    ensures Placed(fields, at, i)
    decreases |fields|
  {
    hide *;
    FirstSized(fields);
    if i == 0 {
      FirstPlaced(fields, at);
    } else {
      PlaceIs(at, ExtentOf(fields[0]));
      FieldPlaced(fields[1..], Place(at, ExtentOf(fields[0])), i - 1);
      LaterPlaced(fields, at, i);
    }
  }

  lemma FirstSized(fields: seq<Type>)
    requires AllSized(fields) && fields != []
    ensures Sized(fields[0]) && AllSized(fields[1..]) && ExtentOf(fields[0]).align > 0
  {
  }

  lemma OffsetsStep(fields: seq<Type>, at: nat)
    requires AllSized(fields) && fields != []
    ensures Sized(fields[0]) && AllSized(fields[1..])
    ensures var f := ExtentOf(fields[0]);
            var start := RoundUp(at, f.align);
            Offsets(fields, at) == [start] + Offsets(fields[1..], start + f.size)
  {
    hide ExtentOf, RoundUp, IsMultiple;
  }

  lemma FieldsStep(fields: seq<Type>, at: Extent)
    requires AllSized(fields) && at.align > 0 && fields != []
    ensures Sized(fields[0]) && AllSized(fields[1..])
    ensures Fields(fields, at) == Fields(fields[1..], Place(at, ExtentOf(fields[0])))
  {
    hide ExtentOf, Place;
  }

  lemma PlaceIs(at: Extent, f: Extent)
    requires f.align > 0
    ensures var at' := Place(at, f);
            && at' == Extent(RoundUp(at.size, f.align) + f.size, at'.align)
            && at.align <= at'.align && f.align <= at'.align
            && IsMultiple(RoundUp(at.size, f.align), f.align) && at.size <= RoundUp(at.size, f.align)
  {
    RoundUpIs(at.size, f.align);
    hide RoundUp, IsMultiple;
  }

  lemma OffsetsStart(fields: seq<Type>, at: Extent)
    requires AllSized(fields) && at.align > 0 && fields != []
    ensures at.size <= Offsets(fields, at.size)[0] <= Fields(fields, at).size
  {
    hide *;
    OffsetsStep(fields, at.size);
    FieldsStep(fields, at);
    PlaceIs(at, ExtentOf(fields[0]));
    FieldsGrow(fields[1..], Place(at, ExtentOf(fields[0])));
  }

  lemma FieldsNone(at: Extent)
    requires at.align > 0
    ensures AllSized([]) && Fields([], at) == at
  {
  }

  lemma FirstPlaced(fields: seq<Type>, at: Extent)
    requires AllSized(fields) && at.align > 0 && fields != []
    ensures Placed(fields, at, 0)
  {
    hide IsMultiple, RoundUp, ExtentOf, Fields, Offsets, AllSized, Sized, Place;
    OffsetsStep(fields, at.size);
    FieldsStep(fields, at);
    var f, rest := ExtentOf(fields[0]), fields[1..];
    PlaceIs(at, f);
    var at' := Place(at, f);
    FieldsGrow(rest, at');
    if rest == [] {
      FieldsNone(at');
    } else {
      OffsetsStart(rest, at');
    }
  }

  lemma LaterPlaced(fields: seq<Type>, at: Extent, i: nat)
    requires AllSized(fields) && at.align > 0 && 0 < i < |fields|
    requires Sized(fields[0]) && Placed(fields[1..], Place(at, ExtentOf(fields[0])), i - 1)
    ensures Placed(fields, at, i)
  {
    hide IsMultiple, RoundUp, ExtentOf, Fields, Offsets, AllSized, Sized, Place;
    OffsetsStep(fields, at.size);
    FieldsStep(fields, at);
    PlaceIs(at, ExtentOf(fields[0]));
    EachSized(fields, i);
  }

  lemma {:induction false} FieldsGrow(fields: seq<Type>, at: Extent)
    requires AllSized(fields) && at.align > 0
    ensures at.size <= Fields(fields, at).size
    decreases |fields|
  {
    if fields == [] {
      FieldsNone(at);
    } else {
      hide *;
      FieldsStep(fields, at);
      PlaceIs(at, ExtentOf(fields[0]));
      FieldsGrow(fields[1..], Place(at, ExtentOf(fields[0])));
    }
  }

  /** A struct's fields in their places: apart, in order, aligned, inside the struct; and the struct's
      size is a multiple of its alignment, padded by less than one alignment. */
  lemma StructLaidOut(t: Type, i: nat)
    requires t.Struct? && Sized(t) && i < |t.fields|
    ensures Sized(t.fields[i])
    ensures var e, f, o := ExtentOf(t), ExtentOf(t.fields[i]), Offsets(t.fields, 0);
            && IsMultiple(o[i], f.align)
            && o[i] + f.size <= (if i + 1 < |t.fields| then o[i + 1] else e.size) <= e.size
            && f.align <= e.align
            && IsMultiple(e.size, e.align)
  {
    FieldPlaced(t.fields, Extent(0, 1), i);
    var e := Fields(t.fields, Extent(0, 1));
    RoundUpIs(e.size, e.align);
  }

  // ----- at any depth ----------------------------------------------------------------------

  /** A path into a type: a field's index in a struct, an element's in an array. */
  predicate IsPath(t: Type, path: seq<nat>)
    decreases |path|
  {
    path == [] ||
    match t
    case Struct(fields) => path[0] < |fields| && IsPath(fields[path[0]], path[1..])
    case Array(n, elem) => path[0] < n && IsPath(elem, path[1..])
    case _ => false
  }

  function NodeAt(t: Type, path: seq<nat>): Type
    requires IsPath(t, path)
    decreases |path|
  {
    if path == [] then t
    else if t.Struct? then NodeAt(t.fields[path[0]], path[1..])
    else NodeAt(t.elem, path[1..])
  }

  /** How far into `t` the node at `path` starts. */
  function OffsetOf(t: Type, path: seq<nat>): nat
    requires IsPath(t, path) && Sized(t)
    decreases |path|
  {
    if path == [] then 0
    else if t.Struct? then
      EachSized(t.fields, path[0]);
      Offsets(t.fields, 0)[path[0]] + OffsetOf(t.fields[path[0]], path[1..])
    else Times(path[0], ExtentOf(t.elem).size) + OffsetOf(t.elem, path[1..])
  }

  /** Vectors whose total size is a power of two, the only ones the source's rule for them fits. */
  predicate Regular(t: Type)
    decreases t, 1
  {
    match t
    case Plain(_) => true
    case Struct(fields) => AllRegular(fields)
    case Array(_, elem) => Regular(elem)
    case Vector(n, s) => PowerOfTwo(Times(n, ScalarExtent(s).size))
  }

  predicate AllRegular(fields: seq<Type>)
    decreases fields, 0
  {
    fields == [] || (Regular(fields[0]) && AllRegular(fields[1..]))
  }

  lemma {:induction false} AlignPower(t: Type)
    requires Sized(t) && Regular(t)
    ensures PowerOfTwo(ExtentOf(t).align)
    ensures IsMultiple(ExtentOf(t).size, ExtentOf(t).align)
    decreases t, 1
  {
    match t
    case Plain(s) =>
      ScalarPower(s);
    case Struct(fields) =>
      assert PowerOfTwo(1);
      FieldsPower(fields, Extent(0, 1));
      var e := Fields(fields, Extent(0, 1));
      RoundUpIs(e.size, e.align);
    case Array(n, elem) =>
      AlignPower(elem);
      TimesMultiple(n, ExtentOf(elem).size, ExtentOf(elem).align);
    case Vector(n, s) =>
  }

  lemma ScalarPower(s: Scalar)
    ensures PowerOfTwo(ScalarExtent(s).align)
  {
    assert PowerOfTwo(1) && PowerOfTwo(2) && PowerOfTwo(4) && PowerOfTwo(8) && PowerOfTwo(16);
  }

  lemma {:induction false} FieldsPower(fields: seq<Type>, at: Extent)
    requires AllSized(fields) && AllRegular(fields) && at.align > 0 && PowerOfTwo(at.align)
    ensures PowerOfTwo(Fields(fields, at).align)
    decreases fields, 0
  {
    if fields != [] {
      AlignPower(fields[0]);
      FieldsPower(fields[1..], Place(at, ExtentOf(fields[0])));
    }
  }

  lemma {:induction false} EachRegular(fields: seq<Type>, i: nat)
    requires AllRegular(fields) && i < |fields|
    ensures Regular(fields[i])
    decreases |fields|
  {
    if i > 0 {
      EachRegular(fields[1..], i - 1);
    }
  }

  /** A node at any depth, through structs and arrays, starts at a multiple of its own alignment and
      lies inside the whole: so the whole is never smaller than anything in it. */
  lemma {:induction false} NestedLaidOut(t: Type, path: seq<nat>)
    requires IsPath(t, path) && Sized(t) && Regular(t)
    ensures Sized(NodeAt(t, path)) && Regular(NodeAt(t, path))
    ensures var e, n := ExtentOf(t), ExtentOf(NodeAt(t, path));
            && IsMultiple(OffsetOf(t, path), n.align)
            && OffsetOf(t, path) + n.size <= e.size
            && IsMultiple(e.align, n.align)
    decreases |path|
  {
    if path == [] {
      SelfMultiple(ExtentOf(t).align);
    } else if t.Struct? {
      StructNested(t, path);
    } else {
      ArrayNested(t, path);
    }
  }

  lemma {:induction false} StructNested(t: Type, path: seq<nat>)
    requires t.Struct? && path != [] && IsPath(t, path) && Sized(t) && Regular(t)
    ensures Sized(NodeAt(t, path)) && Regular(NodeAt(t, path))
    ensures var e, n := ExtentOf(t), ExtentOf(NodeAt(t, path));
            && IsMultiple(OffsetOf(t, path), n.align)
            && OffsetOf(t, path) + n.size <= e.size
            && IsMultiple(e.align, n.align)
    decreases |path|, 0
  {
    var i, rest := path[0], path[1..];
    hide *;
    StructPath(t, path);
    var f := t.fields[i];
    NestedLaidOut(f, rest);
    StructLaidOut(t, i);
    AlignPower(t);
    AlignPower(f);
    var e, fe, n := ExtentOf(t), ExtentOf(f), ExtentOf(NodeAt(f, rest));
    PowerDivides(fe.align, e.align);
    MultipleTrans(e.align, fe.align, n.align);
    MultipleTrans(Offsets(t.fields, 0)[i], fe.align, n.align);
    SumMultiple(Offsets(t.fields, 0)[i], OffsetOf(f, rest), n.align);
  }

  /** A path into a struct, one step down. */
  lemma StructPath(t: Type, path: seq<nat>)
    requires t.Struct? && path != [] && IsPath(t, path) && Sized(t) && Regular(t)
    ensures AllSized(t.fields) && path[0] < |t.fields| && Sized(t.fields[path[0]]) && Regular(t.fields[path[0]])
    ensures IsPath(t.fields[path[0]], path[1..]) && NodeAt(t, path) == NodeAt(t.fields[path[0]], path[1..])
    ensures OffsetOf(t, path) == Offsets(t.fields, 0)[path[0]] + OffsetOf(t.fields[path[0]], path[1..])
  {
    EachSized(t.fields, path[0]);
    EachRegular(t.fields, path[0]);
    hide Offsets, ExtentOf;
  }

  lemma {:induction false} ArrayNested(t: Type, path: seq<nat>)
    requires t.Array? && path != [] && IsPath(t, path) && Sized(t) && Regular(t)
    ensures Sized(NodeAt(t, path)) && Regular(NodeAt(t, path))
    ensures var e, n := ExtentOf(t), ExtentOf(NodeAt(t, path));
            && IsMultiple(OffsetOf(t, path), n.align)
            && OffsetOf(t, path) + n.size <= e.size
            && IsMultiple(e.align, n.align)
    decreases |path|, 0
  {
    var i, rest := path[0], path[1..];
    NestedLaidOut(t.elem, rest);
    AlignPower(t.elem);
    var fe, n := ExtentOf(t.elem), ExtentOf(NodeAt(t.elem, rest));
    TimesMultiple(i, fe.size, fe.align);
    MultipleTrans(Times(i, fe.size), fe.align, n.align);
    SumMultiple(Times(i, fe.size), OffsetOf(t.elem, rest), n.align);
    ElementFits(t.count, i, fe.size);
  }

  /** Whatever its vectors, a type is never smaller than a node in it, and the node lies inside. */
  lemma {:induction false} NestedFits(t: Type, path: seq<nat>)
    requires IsPath(t, path) && Sized(t)
    ensures Sized(NodeAt(t, path))
    ensures OffsetOf(t, path) + ExtentOf(NodeAt(t, path)).size <= ExtentOf(t).size
    decreases |path|
  {
    if path != [] {
      var i, rest := path[0], path[1..];
      if t.Struct? {
        EachSized(t.fields, i);
        NestedFits(t.fields[i], rest);
        StructLaidOut(t, i);
      } else {
        NestedFits(t.elem, rest);
        ElementFits(t.count, i, ExtentOf(t.elem).size);
      }
    }
  }

  // ----- which vectors keep alignment ------------------------------------------------------

  /** Every vector in `t` is `v` or has a power-of-two size. */
  predicate Over(t: Type, v: Type)
    decreases t, 1
  {
    match t
    case Plain(_) => true
    case Struct(fields) => AllOver(fields, v)
    case Array(_, elem) => Over(elem, v)
    case Vector(_, _) => t == v || Regular(t)
  }

  predicate AllOver(fields: seq<Type>, v: Type)
    decreases fields, 0
  {
    fields == [] || (Over(fields[0], v) && AllOver(fields[1..], v))
  }

  lemma {:induction false} OverRegular(t: Type, v: Type)
    requires Over(t, v) && Regular(v)
    ensures Regular(t)
    decreases t, 1
  {
    match t
    case Plain(_) =>
    case Struct(fields) => AllOverRegular(fields, v);
    case Array(_, elem) => OverRegular(elem, v);
    case Vector(_, _) =>
  }

  lemma {:induction false} AllOverRegular(fields: seq<Type>, v: Type)
    requires AllOver(fields, v) && Regular(v)
    ensures AllRegular(fields)
    decreases fields, 0
  {
    if fields != [] {
      OverRegular(fields[0], v);
      AllOverRegular(fields[1..], v);
    }
  }

  /** The node at `path` starts at a multiple of its own alignment. */
  ghost predicate AlignedAt(t: Type, path: seq<nat>) {
    && IsPath(t, path) && Sized(t) && Sized(NodeAt(t, path))
    && IsMultiple(OffsetOf(t, path), ExtentOf(NodeAt(t, path)).align)
  }

  lemma {:induction false} LargestPower(z: nat) returns (p: nat)
    requires z > 0
    ensures PowerOfTwo(p) && p <= z < 2 * p
  {
    if z == 1 {
      p := 1;
    } else {
      var half := LargestPower(z / 2);
      p := 2 * half;
    }
  }

  /** A multiple in the right place is the rounded number. */
  lemma RoundUpUnique(n: nat, a: nat, m: nat)
    requires IsMultiple(m, a) && n <= m < n + a
    ensures RoundUp(n, a) == m
  {
    RoundUpIs(n, a);
    var p := Quotient(RoundUp(n, a), a);
    var q := Quotient(m, a);
    if p < q {
      Distribute(q, p, a);
      TimesAtLeast(q - p, a);
    } else if q < p {
      Distribute(p, q, a);
      TimesAtLeast(p - q, a);
    }
  }

  lemma MultipleApart(z: nat, a: nat)
    requires a < z < 2 * a
    ensures !IsMultiple(z, a) && !IsMultiple(z + 2 * a, a)
  {
    var q := z / a;
    assert z == q * a + z % a;
    QuotientUnique3(z + 2 * a, 3, z - a, a);
    QuotientUnique3(z, 1, z - a, a);
  }

  lemma QuotientUnique3(x: nat, q: nat, m: nat, a: nat)
    requires x == q * a + m && 0 < m < a
    ensures !IsMultiple(x, a)
  {
    if IsMultiple(x, a) {
      var p := Quotient(x, a);
      QuotientUnique(p, q, m, a);
    }
  }

  function Witness(v: Type, a: nat): Type {
    Struct([Plain(I8), Struct([v, Vector(a, I8)])])
  }

  /** Any vector whose size is no power of two misplaces something: a vector of bytes, of the largest power of
      two below that size, behind it in a struct that stands behind a byte. */
  lemma IrregularMisplaces(n: nat, s: Scalar) returns (a: nat)
    requires n > 0 && !Regular(Vector(n, s))
    ensures Regular(Vector(a, I8))
    ensures var v := Vector(n, s);
            && Sized(Witness(v, a)) && Over(Witness(v, a), v) && IsPath(Witness(v, a), [1, 1])
            && NodeAt(Witness(v, a), [1, 1]) == Vector(a, I8) && !AlignedAt(Witness(v, a), [1, 1])
  {
    var v, z := Vector(n, s), Times(n, ScalarExtent(s).size);
    TimesAtLeast(n, ScalarExtent(s).size);
    a := LargestPower(z);
    assert a != z;
    var bytes := Vector(a, I8);
    BytesExtent(a);
    assert ExtentOf(v) == Extent(z, z);
    WitnessOver(v, a);
    MisplacedBy(v, z, a);
  }

  lemma BytesExtent(a: nat)
    requires a > 0
    ensures Sized(Vector(a, I8)) && ExtentOf(Vector(a, I8)) == Extent(a, a)
    ensures Regular(Vector(a, I8)) <==> PowerOfTwo(a)
  {
    assert Times(a, 1) == a;
  }

  lemma WitnessOver(v: Type, a: nat)
    requires v.Vector? && Regular(Vector(a, I8))
    ensures Over(Witness(v, a), v)
  {
    var bytes := Vector(a, I8);
    hide Regular;
    TwoOver(v, bytes, v);
    TwoOver(Plain(I8), Struct([v, bytes]), v);
  }

  lemma TwoOver(a: Type, b: Type, v: Type)
    ensures Over(Struct([a, b]), v) <==> Over(a, v) && Over(b, v)
  {
    assert [a, b][1..] == [b] && [b][1..] == [];
    assert AllOver([b], v) <==> Over(b, v);
  }

  lemma MisplacedBy(v: Type, z: nat, a: nat)
    requires Sized(v) && ExtentOf(v) == Extent(z, z) && a > 0 && a < z < 2 * a && z > 1
    ensures Sized(Witness(v, a)) && IsPath(Witness(v, a), [1, 1]) && NodeAt(Witness(v, a), [1, 1]) == Vector(a, I8)
    ensures !AlignedAt(Witness(v, a), [1, 1])
  {
    hide *;
    var byte, bytes := Plain(I8), Vector(a, I8);
    var inner := Struct([v, bytes]);
    InnerNumbers(v, z, a);
    OuterNumbers(inner, z);
    TwoDown(byte, inner, v, bytes);
    WitnessNumbers(z, a);
    WitnessIs(v, a);
    NotAligned(Witness(v, a), z + 2 * a, a);
  }

  lemma WitnessIs(v: Type, a: nat)
    requires a > 0
    ensures Witness(v, a) == Struct([Plain(I8), Struct([v, Vector(a, I8)])])
    ensures Sized(Vector(a, I8)) && ExtentOf(Vector(a, I8)).align == a
  {
    BytesExtent(a);
  }

  lemma NotAligned(t: Type, at: nat, a: nat)
    requires IsPath(t, [1, 1]) && Sized(t) && OffsetOf(t, [1, 1]) == at && !IsMultiple(at, a)
    requires Sized(NodeAt(t, [1, 1])) && ExtentOf(NodeAt(t, [1, 1])).align == a
    ensures !AlignedAt(t, [1, 1])
  {
    hide IsMultiple, OffsetOf, ExtentOf, NodeAt, IsPath, Sized;
  }

  lemma InnerNumbers(v: Type, z: nat, a: nat)
    requires Sized(v) && ExtentOf(v) == Extent(z, z) && a > 0 && a < z < 2 * a && z > 1
    ensures var inner := Struct([v, Vector(a, I8)]);
            && Sized(inner) && AllSized([v, Vector(a, I8)])
            && ExtentOf(inner).align == z && Offsets([v, Vector(a, I8)], 0)[1] == 2 * a
  {
    BytesExtent(a);
    WitnessNumbers(z, a);
    TwoFields(v, Vector(a, I8));
    hide ExtentOf, RoundUp, Offsets, IsMultiple, Fields;
    TwoExtents(v, Vector(a, I8));
  }

  lemma OuterNumbers(inner: Type, z: nat)
    requires Sized(inner) && ExtentOf(inner).align == z && z > 1
    ensures Sized(Struct([Plain(I8), inner])) && AllSized([Plain(I8), inner])
    ensures Offsets([Plain(I8), inner], 0)[1] == z
  {
    ByteExtent();
    ByteNumbers(z);
    TwoFields(Plain(I8), inner);
    hide ExtentOf, RoundUp, Offsets, IsMultiple, Fields;
    TwoExtents(Plain(I8), inner);
  }

  lemma ByteExtent()
    ensures Sized(Plain(I8)) && ExtentOf(Plain(I8)) == Extent(1, 1)
  {
  }

  lemma ByteNumbers(z: nat)
    requires z > 1
    ensures RoundUp(0, 1) == 0 && RoundUp(1, z) == z
  {
    SelfMultiple(z);
    SelfMultiple(1);
    RoundUpUnique(0, 1, 0);
    RoundUpUnique(1, z, z);
  }

  lemma WitnessNumbers(z: nat, a: nat)
    requires a > 0 && a < z < 2 * a && z > 1
    ensures RoundUp(0, z) == 0 && RoundUp(z, a) == 2 * a
    ensures !IsMultiple(z + 2 * a, a)
  {
    SelfMultiple(z);
    MultipleOf(2, a);
    RoundUpUnique(0, z, 0);
    RoundUpUnique(z, a, 2 * a);
    MultipleApart(z, a);
  }

  /** The exact condition: whatever is built over a vector and vectors of power-of-two size has every node
      aligned if and only if the vector's own size is a power of two. */
  lemma RegularExactly(n: nat, s: Scalar)
    requires n > 0
    ensures PowerOfTwo(Times(n, ScalarExtent(s).size)) <==>
              forall t, path | Sized(t) && Over(t, Vector(n, s)) && IsPath(t, path) :: AlignedAt(t, path)
  {
    var v := Vector(n, s);
    if Regular(v) {
      forall t, path | Sized(t) && Over(t, v) && IsPath(t, path)
        ensures AlignedAt(t, path)
      {
        OverRegular(t, v);
        NestedLaidOut(t, path);
      }
    } else {
      var a := IrregularMisplaces(n, s);
      assert !AlignedAt(Witness(v, a), [1, 1]);
    }
  }

  /** A struct of two fields, field by field. */
  lemma TwoFields(a: Type, b: Type)
    ensures Sized(Struct([a, b])) <==> Sized(a) && Sized(b)
    ensures Regular(Struct([a, b])) <==> Regular(a) && Regular(b)
  {
    assert [a, b][1..] == [b] && [b][1..] == [];
    assert AllSized([b]) <==> Sized(b);
    assert AllRegular([b]) <==> Regular(b);
  }

  lemma TwoExtents(a: Type, b: Type)
    requires Sized(a) && Sized(b) && AllSized([a, b])
    ensures Sized(Struct([a, b]))
    ensures var e, f, start := ExtentOf(a), ExtentOf(b), RoundUp(0, ExtentOf(a).align);
            var at := Place(Place(Extent(0, 1), e), f);
            && ExtentOf(Struct([a, b])) == Extent(RoundUp(at.size, at.align), at.align)
            && Offsets([a, b], 0) == [start, RoundUp(start + e.size, f.align)]
  {
    hide ExtentOf, RoundUp, IsMultiple;
    assert [a, b][1..] == [b] && [b][1..] == [];
    var at := Place(Extent(0, 1), ExtentOf(a));
    assert Fields([b], at) == Place(at, ExtentOf(b));
    assert Fields([a, b], Extent(0, 1)) == Place(at, ExtentOf(b));
    ExtentOfStruct([a, b]);
  }

  lemma ExtentOfStruct(fields: seq<Type>)
    requires AllSized(fields)
    ensures var e := Fields(fields, Extent(0, 1)); ExtentOf(Struct(fields)) == Extent(RoundUp(e.size, e.align), e.align)
  {
  }

  lemma TwoDown(a: Type, inner: Type, b: Type, c: Type)
    requires inner == Struct([b, c])
    ensures var t := Struct([a, inner]);
            && IsPath(t, [1, 1]) && NodeAt(t, [1, 1]) == c
            && (Sized(t) && Sized(inner) ==> OffsetOf(t, [1, 1]) == Offsets([a, inner], 0)[1] + Offsets([b, c], 0)[1])
  {
    assert [1, 1][1..] == [1] && [1][1..] == [];
    assert IsPath(inner, [1]) && NodeAt(inner, [1]) == c;
    if Sized(Struct([a, inner])) && Sized(inner) {
      OneDown(inner);
    }
  }

  lemma OneDown(t: Type)
    requires t.Struct? && |t.fields| > 1 && Sized(t) && IsPath(t, [1])
    ensures OffsetOf(t, [1]) == Offsets(t.fields, 0)[1]
  {
    assert [1][1..] == [];
  }
}
