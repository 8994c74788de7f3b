/** Header lines as they are sent: a name, a colon and a value, with blanks about them, or no colon at all. */
module HeaderLines {
  import opened Text
  import opened TextMeans

  datatype Field = Field(gap: string, value: string, back: string)

  datatype Header = Header(front: string, name: string, mid: string, field: Option<Field>)

  function FieldText(f: Option<Field>): string {
    match f
    case None => ""
    case Some(Field(gap, value, back)) => ":" + (gap + (value + back))
  }

  function Line(h: Header): string {
    h.front + (h.name + h.mid) + FieldText(h.field)
  }

  function Value(h: Header): string {
    if h.field.Some? then h.field.value.value else ""
  }

  predicate GoodField(f: Field) {
    Blanks(f.gap) && Blanks(f.back) && Trimmed(f.value)
  }

  /** The blanks are blanks, and all of them; the colon is the line's first. */
  predicate Good(h: Header) {
    && Blanks(h.front) && Blanks(h.mid) && Trimmed(h.name) && ':' !in h.name
    && (h.field.Some? ==> GoodField(h.field.value))
  }

  predicate AllGood(hs: seq<Header>) {
    forall i :: 0 <= i < |hs| ==> Good(hs[i])
  }

  function Lines(hs: seq<Header>): (lines: seq<string>)
    ensures |lines| == |hs| && forall i :: 0 <= i < |hs| ==> lines[i] == Line(hs[i])
  {
    seq(|hs|, i requires 0 <= i < |hs| => Line(hs[i]))
  }

  /** The value of the last header of that name, however the name is written. */
  function LastValue(hs: seq<Header>, name: string): Option<string> {
    if hs == [] then None
    else
      var last := hs[|hs| - 1];
      if SameWord(last.name, name) then Some(Value(last)) else LastValue(hs[..|hs| - 1], name)
  }

  lemma NoColon(front: string, name: string, mid: string)
    requires Blanks(front) && Blanks(mid) && ':' !in name
    ensures ':' !in front + (name + mid)
  {
    assert ':' !in front && ':' !in mid;
  }

  /** A line is read back: what stands before its first colon, and what stands behind it. */
  lemma LineRead(h: Header)
    requires Good(h)
    ensures Strip(Before(Line(h), ':')) == h.name && Strip(After(Line(h), ':')) == Value(h)
  {
    hide Blanks, Trimmed, Strip;
    var head := h.front + (h.name + h.mid);
    NoColon(h.front, h.name, h.mid);
    StripPadded(h.front, h.name, h.mid);
    match h.field
    case None =>
      NoMore(head);
      BeforeAll(head, ':');
      TrimmedEmpty();
      TrimmedStays("");
    case Some(Field(gap, value, back)) =>
      BeforeAfter(head, ':', gap + (value + back));
      StripPadded(gap, value, back);
  }

  lemma TrimmedEmpty()
    ensures Trimmed("")
  {
  }

  /** Every line there is is such a header. */
  lemma EveryLine(line: string) returns (h: Header)
    ensures Good(h) && Line(h) == line
  {
    hide Blanks, Trimmed, Strip;
    var head := Before(line, ':');
    var front, mid := StripMeans(head);
    NotIn(front, Strip(head), mid, ':');
    if head == line {
      h := Header(front, Strip(head), mid, None);
      NoMore(head);
    } else {
      var tail := After(line, ':');
      var gap, back := StripMeans(tail);
      h := Header(front, Strip(head), mid, Some(Field(gap, Strip(tail), back)));
      assert line == head + ([':'] + tail);
    }
  }

  lemma NotIn(a: string, b: string, c: string, ch: char)
    ensures ch !in a + (b + c) ==> ch !in b
  {
  }

  /** One header more: the last of a name wins. */
  lemma LastValueMore(hs: seq<Header>, h: Header, name: string)
    ensures LastValue(hs + [h], name) == if SameWord(h.name, name) then Some(Value(h)) else LastValue(hs, name)
  {
    assert (hs + [h])[..|hs|] == hs;
  }

  lemma {:induction false} LastValueSome(hs: seq<Header>, name: string)
    ensures LastValue(hs, name).Some? <==> exists i :: 0 <= i < |hs| && SameWord(hs[i].name, name)
  {
    hide SameWord;
    if hs != [] {
      var n := |hs| - 1;
      LastValueSome(hs[..n], name);
      assert forall i :: 0 <= i < n ==> hs[..n][i] == hs[i];
    }
  }
}
