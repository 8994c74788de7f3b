/** `copies` of scripts/copyback_guard.py on functions whose parameters and results are types: what it reports, said
    of the types and the names alone. */
module CopybackTyped {
  import opened Text
  import opened LlvmTypes
  import opened CopybackGuard

  /** A parameter passed by value, with what stands behind its type. */
  datatype Parameter = Parameter(of: Type, attributes: string)

  /** A function: its symbol, what stands before its result, the result, and its parameters. */
  datatype Typed = Typed(symbol: string, linkage: string, result: Type, params: seq<Parameter>)

  function ParamTexts(params: seq<Parameter>): (texts: seq<string>)
    ensures |texts| == |params|
    ensures forall i :: 0 <= i < |params| ==> texts[i] == Param(params[i].of, params[i].attributes)
  {
    seq(|params|, i requires 0 <= i < |params| => Param(params[i].of, params[i].attributes))
  }

  function Written(d: Typed): Define {
    Define(d.symbol, d.linkage + Print(d.result), ParamTexts(d.params))
  }

  function AllWritten(defs: seq<Typed>): (ds: seq<Define>)
    ensures |ds| == |defs| && forall i :: 0 <= i < |defs| ==> ds[i] == Written(defs[i])
  {
    seq(|defs|, i requires 0 <= i < |defs| => Written(defs[i]))
  }

  // ----- names ---------------------------------------------------------------------------------------

  /** The symbol is the name with something before and behind it that no word goes on in. */
  predicate NamedIn(symbol: string, before: string, name: string, after: string) {
    && symbol == before + (name + after)
    && (before != "" ==> !IsWord(before[|before| - 1])) && (after != "" ==> !IsWord(after[0]))
  }

  ghost predicate HasName(symbol: string, name: string) {
    exists before, after :: NamedIn(symbol, before, name, after)
  }

  lemma MentionsExactly(symbol: string, name: string)
    ensures Mentions(symbol, name) <==> HasName(symbol, name)
  {
    if Mentions(symbol, name) {
      MentionNames(symbol, name);
    }
    if HasName(symbol, name) {
      NameMentioned(symbol, name);
    }
  }

  lemma MentionNames(symbol: string, name: string)
    requires Mentions(symbol, name)
    ensures HasName(symbol, name)
  {
    var i: nat :| i <= |symbol| && OccursAt(symbol, name, i) && (i == 0 || !IsWord(symbol[i - 1])) &&
      (i + |name| == |symbol| || !IsWord(symbol[i + |name|]));
    Around(symbol, name, i);
    hide IsWord;
    assert NamedIn(symbol, symbol[..i], name, symbol[i + |name|..]);
  }

  lemma NameMentioned(symbol: string, name: string)
    requires HasName(symbol, name)
    ensures Mentions(symbol, name)
  {
    var before, after :| NamedIn(symbol, before, name, after);
    Inside(before, name, after);
    hide IsWord, OccursAt;
  }

  lemma Around(symbol: string, name: string, i: nat)
    requires OccursAt(symbol, name, i)
    ensures symbol == symbol[..i] + (name + symbol[i + |name|..])
  {
    assert symbol == symbol[..i] + symbol[i..] && symbol[i..] == symbol[i..i + |name|] + symbol[i + |name|..];
  }

  lemma Inside(before: string, name: string, after: string)
    ensures var s, i := before + (name + after), |before|;
            && OccursAt(s, name, i) && |s| == i + |name| + |after|
            && (before != "" ==> s[i - 1] == before[|before| - 1]) && (after != "" ==> s[i + |name|] == after[0])
  {
  }

  // ----- what is reported ------------------------------------------------------------------------------

  predicate AllStructs(lays: set<Type>) {
    forall s | s in lays :: s.Struct?
  }

  predicate PlainLinkage(defs: seq<Typed>) {
    forall i :: 0 <= i < |defs| ==> NoBrace(defs[i].linkage)
  }

  predicate HoldsSome(t: Type, lays: set<Type>) {
    exists s | s in lays :: Holds(t, s)
  }

  /** `c` reports parameter `c.index` of `d`: a struct that is one of the types, in a function that has the name,
      or one that only holds such a type; and whether the result holds the parameter's type. */
  ghost predicate Reports(d: Typed, name: string, lays: set<Type>, c: Copy) {
    && c.symbol == d.symbol && c.index < |d.params|
    && var t := d.params[c.index].of;
    && t.Struct? && c.returned == Holds(d.result, t)
    && if c.embedded then t !in lays && HoldsSome(t, lays) else t in lays && HasName(d.symbol, name)
  }

  lemma CopyReports(d: Typed, name: string, lays: set<Type>, c: Copy)
    requires AllStructs(lays) && NoBrace(d.linkage)
    ensures FromParam(Written(d), 0, Mentions(d.symbol, name), Printed(lays), c) <==> Reports(d, name, lays, c)
  {
    hide Print, Holds, CopyOf, Mentions, HasName, NoBrace, Printed;
    MentionsExactly(d.symbol, name);
    if c.index < |d.params| {
      var p := d.params[c.index];
      CopyOfTyped(Written(d), c.index, Mentions(d.symbol, name), lays, p.of, p.attributes, d.linkage, d.result);
    }
  }

  /** What is reported is what the types and the names say, on any functions at all. */
  lemma CopiesTyped(defs: seq<Typed>, name: string, lays: set<Type>, c: Copy)
    requires AllStructs(lays) && PlainLinkage(defs)
    ensures c in AllCopies(AllWritten(defs), name, Printed(lays), []) <==>
              exists i :: 0 <= i < |defs| && Reports(defs[i], name, lays, c)
  {
    hide FromParam, Reports, AllStructs, NoBrace, Mentions, AllCopies, Written, Printed;
    CopiesExact(AllWritten(defs), name, Printed(lays), [], c);
    forall i | 0 <= i < |defs|
      ensures FromWritten(defs[i], name, lays, c) <==> Reports(defs[i], name, lays, c)
    {
      CopyReports(defs[i], name, lays, c);
      SymbolKept(defs[i]);
    }
    AmongWritten(defs, name, lays, c);
  }

  ghost predicate FromWritten(d: Typed, name: string, lays: set<Type>, c: Copy) {
    FromParam(Written(d), 0, Mentions(Written(d).symbol, name), Printed(lays), c)
  }

  lemma SymbolKept(d: Typed)
    ensures Written(d).symbol == d.symbol
  {
  }

  lemma AmongWritten(defs: seq<Typed>, name: string, lays: set<Type>, c: Copy)
    ensures IsCopy(AllWritten(defs), name, Printed(lays), c) <==>
              exists i :: 0 <= i < |defs| && FromWritten(defs[i], name, lays, c)
  {
    hide FromParam, Mentions, Written, Printed;
    var ds := AllWritten(defs);
    if IsCopy(ds, name, Printed(lays), c) {
      var d :| d in ds && FromParam(d, 0, Mentions(d.symbol, name), Printed(lays), c);
      var i :| 0 <= i < |ds| && ds[i] == d;
      assert FromWritten(defs[i], name, lays, c);
    }
    if i :| 0 <= i < |defs| && FromWritten(defs[i], name, lays, c) {
      assert ds[i] in ds;
    }
  }

  /** Types as LLVM writes them. */
  lemma WrittenTypes()
    ensures Print(Plain(I64)) == "i64" && Print(Array(4, Plain(Ptr))) == "[4 x ptr]" && Print(Struct([])) == "{}"
    ensures Print(Vector(2, Double)) == "<2 x double>"
    ensures Print(Struct([Plain(I64), Array(4, Plain(Ptr))])) == "{ i64, [4 x ptr] }"
  {
    WrittenParts();
    WrittenStruct(Plain(I64), Array(4, Plain(Ptr)));
    hide Print;
  }

  lemma WrittenStruct(a: Type, b: Type)
    ensures Print(Struct([a, b])) == "{ " + (Print(a) + (", " + (Print(b) + " }")))
  {
    assert [a, b][1..] == [b] && [b][1..] == [];
    AmongText([a, b]);
    AmongText([b]);
    assert PrintRest([]) == " }";
    hide Print;
  }

  lemma WrittenParts()
    ensures Print(Plain(I64)) == "i64" && Print(Array(4, Plain(Ptr))) == "[4 x ptr]"
    ensures Print(Vector(2, Double)) == "<2 x double>"
  {
    assert Decimal(4) == "4" && Decimal(2) == "2";
    assert Print(Plain(Ptr)) == "ptr";
  }
}
