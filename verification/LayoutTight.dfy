/** The layout `size_align` of scripts/copyback_guard.py computes is the tightest there is: every field stands at the
    first place it may, and the struct ends at the first place it may. */
module LayoutTight {
  import opened Text
  import opened LlvmTypes
  import opened Layout
  import opened LayoutText

  /** `x` is the first multiple of `a` from `n` on. */
  ghost predicate FirstFrom(x: nat, n: nat, a: nat) {
    IsMultiple(x, a) && n <= x && forall y: nat :: n <= y && IsMultiple(y, a) ==> x <= y
  }

  lemma RoundUpFirst(n: nat, a: nat)
    requires a > 0
    ensures FirstFrom(RoundUp(n, a), n, a)
  {
    RoundUpIs(n, a);
    forall y: nat | n <= y && IsMultiple(y, a)
      ensures RoundUp(n, a) <= y
    {
      if y < n + a {
        RoundUpUnique(n, a, y);
      }
    }
  }

  /** Where field `i` could start at the earliest: behind the one before it. */
  function EndBefore(fields: seq<Type>, at: nat, i: nat): nat
    requires AllSized(fields) && i <= |fields|
  {
    if i == 0 then at
    else
      EachSized(fields, i - 1);
      Offsets(fields, at)[i - 1] + ExtentOf(fields[i - 1]).size
  }

  /** Field `i` stands at the first multiple of its alignment there is room at. */
  ghost predicate Tight(fields: seq<Type>, at: nat, i: nat) {
    && AllSized(fields) && i < |fields| && Sized(fields[i])
    && FirstFrom(Offsets(fields, at)[i], EndBefore(fields, at, i), ExtentOf(fields[i]).align)
  }

  ghost predicate AlignmentOf(fields: seq<Type>, a: nat) {
    exists i :: 0 <= i < |fields| && Sized(fields[i]) && ExtentOf(fields[i]).align == a
  }

  lemma EndBeforeStep(fields: seq<Type>, at: nat, i: nat)
    requires AllSized(fields) && fields != [] && 0 < i <= |fields|
    ensures Sized(fields[0]) && AllSized(fields[1..])
    ensures var next := RoundUp(at, ExtentOf(fields[0]).align) + ExtentOf(fields[0]).size;
            EndBefore(fields, at, i) == EndBefore(fields[1..], next, i - 1)
  {
    hide ExtentOf, RoundUp, Offsets;
    OffsetsStep(fields, at);
  }

  lemma {:induction false} FieldsTight(fields: seq<Type>, at: Extent, i: nat)
    requires AllSized(fields) && at.align > 0 && i < |fields|
    ensures Tight(fields, at.size, i)
    decreases |fields|
  {
    hide ExtentOf, RoundUp, Offsets, Fields, FirstFrom, Place, EndBefore, AllSized, Sized;
    FirstSized(fields);
    OffsetsStep(fields, at.size);
    var f := ExtentOf(fields[0]);
    if i == 0 {
      RoundUpFirst(at.size, f.align);
      FromStart(fields, at.size);
    } else {
      PlaceIs(at, f);
      FieldsTight(fields[1..], Place(at, f), i - 1);
      EndBeforeStep(fields, at.size, i);
      EachSized(fields, i);
    }
  }

  lemma FromStart(fields: seq<Type>, at: nat)
    requires AllSized(fields)
    ensures EndBefore(fields, at, 0) == at
  {
  }

  lemma {:induction false} FieldsEnd(fields: seq<Type>, at: Extent)
    requires AllSized(fields) && at.align > 0
    ensures Fields(fields, at).size == EndBefore(fields, at.size, |fields|)
    ensures Fields(fields, at).align == at.align || AlignmentOf(fields, Fields(fields, at).align)
    ensures fields != [] && at.align == 1 ==> AlignmentOf(fields, Fields(fields, at).align)
    decreases |fields|
  {
    hide ExtentOf, RoundUp, Offsets, Fields, EndBefore, AllSized, Sized;
    if fields == [] {
      FieldsNone(at);
      FromStart(fields, at.size);
    } else {
      FirstSized(fields);
      FieldsStep(fields, at);
      var f := ExtentOf(fields[0]);
      PlaceIs(at, f);
      EndBeforeStep(fields, at.size, |fields|);
      FieldsEnd(fields[1..], Place(at, f));
      AlignmentBehind(fields, Fields(fields, at).align);
    }
  }

  lemma AlignmentBehind(fields: seq<Type>, a: nat)
    requires AllSized(fields) && fields != []
    ensures AlignmentOf(fields[1..], a) ==> AlignmentOf(fields, a)
    ensures Sized(fields[0]) && (ExtentOf(fields[0]).align == a ==> AlignmentOf(fields, a))
  {
    if AlignmentOf(fields[1..], a) {
      var i :| 0 <= i < |fields[1..]| && Sized(fields[1..][i]) && ExtentOf(fields[1..][i]).align == a;
      assert fields[i + 1] == fields[1..][i];
    }
  }

  /** A struct is laid out as tightly as its fields' alignments allow: each field at the first place it may stand
      at, the struct as long as to the first multiple of its own alignment, which is the largest of its fields'. */
  lemma StructTight(t: Type)
    requires t.Struct? && Sized(t)
    ensures forall i :: 0 <= i < |t.fields| ==> Tight(t.fields, 0, i)
    ensures FirstFrom(ExtentOf(t).size, EndBefore(t.fields, 0, |t.fields|), ExtentOf(t).align)
    ensures if t.fields == [] then ExtentOf(t).align == 1 else AlignmentOf(t.fields, ExtentOf(t).align)
    ensures forall i :: 0 <= i < |t.fields| ==> Sized(t.fields[i]) && ExtentOf(t.fields[i]).align <= ExtentOf(t).align
  {
    var at := Extent(0, 1);
    var e := Fields(t.fields, at);
    RoundUpFirst(e.size, e.align);
    FieldsEnd(t.fields, at);
    forall i | 0 <= i < |t.fields|
      ensures Tight(t.fields, 0, i)
      ensures Sized(t.fields[i]) && ExtentOf(t.fields[i]).align <= ExtentOf(t).align
    {
      FieldsTight(t.fields, at, i);
      StructLaidOut(t, i);
    }
  }

  // ----- texts ----------------------------------------------------------------------------------------

  /** The sizes the table gives, as texts. */
  lemma KnownSizes()
    ensures Measure("i1") == Measure("i8") == Some(Extent(1, 1))
    ensures Measure("i16") == Some(Extent(2, 2))
    ensures Measure("i32") == Measure("float") == Some(Extent(4, 4))
    ensures Measure("i64") == Measure("ptr") == Measure("double") == Some(Extent(8, 8))
    ensures Measure("i128") == Some(Extent(16, 16))
  {
    hide Measure;
    MeasureName(I1);
    MeasureName(I8);
    MeasureName(I16);
    MeasureName(I32);
    MeasureName(Float);
    MeasureName(I64);
    MeasureName(Ptr);
    MeasureName(Double);
    MeasureName(I128);
  }

  /** The text is a bracket, digits, an x between blanks and something on the same line, and the closing bracket. */
  predicate CountedText(t: string, open: char, digits: string, elem: string, close: char) {
    && t == [open] + (digits + (" x " + (elem + [close])))
    && digits != "" && AllDigits(digits) && elem != "" && '\n' !in elem
  }

  lemma CountedRead(t: string, open: char, digits: string, elem: string, close: char)
    requires CountedText(t, open, digits, elem, close)
    ensures MatchCounted(t, open, close) == Some(Counted(Number(digits), elem))
  {
    var inner := digits + (" x " + elem);
    assert t == [open] + inner + [close];
    InsideOf(open, inner, close);
    CutNumeral(digits, elem);
    BeforeSpace(digits, "x " + elem);
    OnOneLine(elem);
    hide Number, AllDigits, Before;
  }

  lemma ReadCounted(t: string, open: char, close: char)
    requires MatchCounted(t, open, close).Some?
    ensures exists digits, elem :: CountedText(t, open, digits, elem, close)
              && MatchCounted(t, open, close).value == Counted(Number(digits), elem)
  {
    var inner := Inside(t);
    var digits := Before(inner, ' ');
    var elem := inner[|digits|..][3..];
    hide Number, AllDigits;
    assert inner == digits + inner[|digits|..];
    assert inner[|digits|..] == " x " + elem;
    assert t == [open] + (inner + [close]);
    Nested(digits, elem, close);
    assert forall i :: 0 <= i < |elem| ==> elem[i] == inner[|digits|..][i + 3];
    assert CountedText(t, open, digits, elem, close);
  }

  lemma Nested(digits: string, elem: string, close: char)
    ensures (digits + (" x " + elem)) + [close] == digits + (" x " + (elem + [close]))
  {
  }
}
