/** `inspect_elf` of scripts/binfmt.py: the dynamic section of a 64-bit ELF file, in either byte order.
    Strings are byte strings; their UTF-8 decoding is not part of the model. Tags are read unsigned,
    which tells the same tags apart as the source's signed reading. */
module Elf {
  import opened Text
  import opened Binary

  const MAGIC: Bytes := [0x7f, 0x45, 0x4c, 0x46]

  const PT_LOAD: nat := 1
  const PT_DYNAMIC: nat := 2
  const DT_NULL: nat := 0
  const DT_NEEDED: nat := 1
  const DT_STRTAB: nat := 5
  const DT_SONAME: nat := 14
  const DT_RPATH: nat := 15
  const DT_RUNPATH: nat := 29

  datatype Error =
    | NotElf64
    | NoDynamic
    | NoStringTable
    | Unmapped      // an address in no PT_LOAD segment
    | ShortRead     // struct.error, or IndexError in the identification bytes
    | Unterminated  // ValueError from data.index

  datatype Result<+T> = Ok(value: T) | Err(error: Error)

  datatype Load = Load(vaddr: nat, filesz: nat, offset: nat)

  datatype Dynamic = Dynamic(offset: nat, size: nat)

  datatype Segments = Segments(dyn: Option<Dynamic>, loads: seq<Load>)

  datatype Tag = Tag(tag: nat, val: nat)

  datatype Info = Info(search: seq<Bytes>, deps: seq<Bytes>, soname: Option<Bytes>)

  // ----- program headers -----------------------------------------------------------------------

  /** One program header, at `base`. */
  function AddSegment(data: Bytes, little: bool, base: nat, s: Segments): Result<Segments> {
    if base + 40 > |data| then Err(ShortRead)
    else
      var kind, offset := U32(data, base, little), U64(data, base + 8, little);
      var vaddr, filesz := U64(data, base + 16, little), U64(data, base + 32, little);
      if kind == PT_DYNAMIC then Ok(s.(dyn := Some(Dynamic(offset, filesz))))
      else if kind == PT_LOAD then Ok(s.(loads := s.loads + [Load(vaddr, filesz, offset)]))
      else Ok(s)
  }

  function ReadSegments(data: Bytes, little: bool, base: nat, entsize: nat, n: nat, s: Segments): Result<Segments>
    decreases n
  {
    if n == 0 then Ok(s)
    else
      match AddSegment(data, little, base, s)
      case Err(e) => Err(e)
      case Ok(s') => ReadSegments(data, little, base + entsize, entsize, n - 1, s')
  }

  method SegmentsOf(data: Bytes, little: bool, phoff: nat, entsize: nat, n: nat) returns (r: Result<Segments>)
    ensures r == ReadSegments(data, little, phoff, entsize, n, Segments(None, []))
  {
    var s := Segments(None, []);
    var base: nat := phoff;
    for i := 0 to n
      invariant ReadSegments(data, little, phoff, entsize, n, Segments(None, [])) ==
                ReadSegments(data, little, base, entsize, n - i, s)
    {
      var step := AddSegment(data, little, base, s);
      if step.Err? {
        return Err(step.error);
      }
      s := step.value;
      base := base + entsize;
    }
    return Ok(s);
  }

  /** The file offset of an address: through the first segment that holds it. */
  function FileOffset(loads: seq<Load>, v: nat): Result<nat> {
    if loads == [] then Err(Unmapped)
    else if loads[0].vaddr <= v < loads[0].vaddr + loads[0].filesz then Ok(loads[0].offset + (v - loads[0].vaddr))
    else FileOffset(loads[1..], v)
  }

  // ----- the dynamic section ---------------------------------------------------------------------

  /** The entries from `at` up to the first DT_NULL or to `end`, on top of those read before. */
  function ReadTags(data: Bytes, little: bool, at: nat, end: nat, tags: seq<Tag>): Result<seq<Tag>>
    decreases end - at
  {
    if at >= end then Ok(tags)
    else if at + 16 > |data| then Err(ShortRead)
    else
      var tag, val := U64(data, at, little), U64(data, at + 8, little);
      if tag == DT_NULL then Ok(tags) else ReadTags(data, little, at + 16, end, tags + [Tag(tag, val)])
  }

  method TagsOf(data: Bytes, little: bool, start: nat, end: nat) returns (r: Result<seq<Tag>>)
    ensures r == ReadTags(data, little, start, end, [])
  {
    var tags, at := [], start;
    while at < end
      invariant ReadTags(data, little, start, end, []) == ReadTags(data, little, at, end, tags)
      decreases end - at
    {
      if at + 16 > |data| {
        return Err(ShortRead);
      }
      var tag := U64(data, at, little);
      if tag == DT_NULL {
        break;
      }
      tags := tags + [Tag(tag, U64(data, at + 8, little))];
      at := at + 16;
    }
    return Ok(tags);
  }

  /** The address the last DT_STRTAB gives. */
  function StringTable(tags: seq<Tag>): Option<nat> {
    if tags == [] then None
    else if tags[|tags| - 1].tag == DT_STRTAB then Some(tags[|tags| - 1].val)
    else StringTable(tags[..|tags| - 1])
  }

  function StringAt(data: Bytes, at: nat): Result<Bytes> {
    if at > |data| then Err(Unterminated)
    else
      match FindZero(data, at, |data|)
      case None => Err(Unterminated)
      case Some(stop) => Ok(data[at..stop])
  }

  /** The non-empty parts between colons. */
  function Paths(s: Bytes, part: Bytes): seq<Bytes>
    decreases |s|
  {
    if s == [] then if part == [] then [] else [part]
    else if s[0] == 0x3a then (if part == [] then [] else [part]) + Paths(s[1..], [])
    else Paths(s[1..], part + [s[0]])
  }

  /** What one entry adds. */
  function AddTag(data: Bytes, strtab: nat, t: Tag, info: Info): Result<Info> {
    if t.tag == DT_NEEDED then
      match StringAt(data, strtab + t.val)
      case Err(e) => Err(e)
      case Ok(s) => Ok(info.(deps := info.deps + [s]))
    else if t.tag == DT_SONAME then
      match StringAt(data, strtab + t.val)
      case Err(e) => Err(e)
      case Ok(s) => Ok(info.(soname := Some(s)))
    else if t.tag == DT_RPATH || t.tag == DT_RUNPATH then
      match StringAt(data, strtab + t.val)
      case Err(e) => Err(e)
      case Ok(s) => Ok(info.(search := info.search + Paths(s, [])))
    else Ok(info)
  }

  function AddTags(data: Bytes, strtab: nat, tags: seq<Tag>, info: Info): Result<Info>
    decreases |tags|
  {
    if tags == [] then Ok(info)
    else
      match AddTag(data, strtab, tags[0], info)
      case Err(e) => Err(e)
      case Ok(info') => AddTags(data, strtab, tags[1..], info')
  }

  method InfoOf(data: Bytes, strtab: nat, tags: seq<Tag>) returns (r: Result<Info>)
    ensures r == AddTags(data, strtab, tags, Info([], [], None))
  {
    var info := Info([], [], None);
    for i := 0 to |tags|
      invariant AddTags(data, strtab, tags, Info([], [], None)) == AddTags(data, strtab, tags[i..], info)
    {
      assert tags[i..][0] == tags[i] && tags[i..][1..] == tags[i + 1..];
      var step := AddTag(data, strtab, tags[i], info);
      if step.Err? {
        return Err(step.error);
      }
      info := step.value;
    }
    return Ok(info);
  }

  /** Behind the program headers: the entries, the string table, and what the entries name. */
  function InspectDynamic(data: Bytes, little: bool, s: Segments): Result<Info> {
    if s.dyn == None then Err(NoDynamic)
    else
      match ReadTags(data, little, s.dyn.value.offset, s.dyn.value.offset + s.dyn.value.size, [])
      case Err(e) => Err(e)
      case Ok(tags) =>
        match StringTable(tags)
        case None => Err(NoStringTable)
        case Some(v) =>
          match FileOffset(s.loads, v)
          case Err(e) => Err(e)
          case Ok(strtab) => AddTags(data, strtab, tags, Info([], [], None))
  }

  function Inspect(data: Bytes): Result<Info> {
    if |data| < 4 || data[..4] != MAGIC then Err(NotElf64)
    else if |data| == 4 then Err(ShortRead)
    else if data[4] != 2 then Err(NotElf64)
    else if |data| < 0x3a then Err(ShortRead)
    else
      var little := data[5] == 1;
      match ReadSegments(data, little, U64(data, 0x20, little), U16(data, 0x36, little), U16(data, 0x38, little),
          Segments(None, []))
      case Err(e) => Err(e)
      case Ok(s) => InspectDynamic(data, little, s)
  }

  method InspectElf(data: Bytes) returns (r: Result<Info>)
    ensures r == Inspect(data)
  {
    if |data| < 4 || data[..4] != MAGIC {
      return Err(NotElf64);
    }
    if |data| == 4 {
      return Err(ShortRead);
    }
    if data[4] != 2 {
      return Err(NotElf64);
    }
    if |data| < 0x3a {
      return Err(ShortRead);
    }
    var little := data[5] == 1;
    var segments := SegmentsOf(data, little, U64(data, 0x20, little), U16(data, 0x36, little), U16(data, 0x38, little));
    if segments.Err? {
      return Err(segments.error);
    }
    if segments.value.dyn == None {
      return Err(NoDynamic);
    }
    var dyn := segments.value.dyn.value;
    var tags := TagsOf(data, little, dyn.offset, dyn.offset + dyn.size);
    if tags.Err? {
      return Err(tags.error);
    }
    var v := StringTable(tags.value);
    if v == None {
      return Err(NoStringTable);
    }
    var strtab := FileOffset(segments.value.loads, v.value);
    if strtab.Err? {
      return Err(strtab.error);
    }
    r := InfoOf(data, strtab.value, tags.value);
  }

  // ----- what a file says, apart from how it is read -----------------------------------------------

  datatype Segment =
    | Loaded(load: Load)
    | DynamicAt(dyn: Dynamic)
    | OtherSegment(kind: nat, offset: nat, vaddr: nat, filesz: nat)

  /** An entry and, where its value is an offset into the string table, the string there. */
  datatype Entry =
    | Needed(at: nat, name: Bytes)
    | Soname(at: nat, name: Bytes)
    | SearchPath(tag: nat, at: nat, paths: Bytes)
    | Strtab(vaddr: nat)
    | OtherEntry(tag: nat, val: nat)

  function TagOf(e: Entry): Tag {
    match e
    case Needed(at, _) => Tag(1, at)
    case Soname(at, _) => Tag(14, at)
    case SearchPath(tag, at, _) => Tag(tag, at)
    case Strtab(v) => Tag(5, v)
    case OtherEntry(tag, val) => Tag(tag, val)
  }

  const KNOWN := [0, 1, 5, 14, 15, 29]

  predicate EntryOk(e: Entry) {
    && TagOf(e).val < TWO64
    && match e
       case Needed(_, name) => NoZero(name)
       case Soname(_, name) => NoZero(name)
       case SearchPath(tag, _, paths) => (tag == 15 || tag == 29) && NoZero(paths)
       case Strtab(_) => true
       case OtherEntry(tag, _) => tag < TWO64 && tag !in KNOWN
  }

  /** The header of segment `s` stands at `base`. */
  predicate HeaderAt(data: Bytes, little: bool, base: nat, s: Segment) {
    var (kind, offset, vaddr, filesz) := match s
      case Loaded(l) => (1, l.offset, l.vaddr, l.filesz)
      case DynamicAt(d) => (2, d.offset, 0, d.size)
      case OtherSegment(kind, offset, vaddr, filesz) => (kind, offset, vaddr, filesz);
    && base + 40 <= |data|
    && (s.OtherSegment? ==> kind < TWO32 && kind != 1 && kind != 2)
    && offset < TWO64 && filesz < TWO64
    && StandsAt(data, base, Pack32(kind, little))
    && StandsAt(data, base + 8, Pack64(offset, little))
    && (s.Loaded? ==> vaddr < TWO64 && StandsAt(data, base + 16, Pack64(vaddr, little)))
    && StandsAt(data, base + 32, Pack64(filesz, little))
  }

  predicate HeadersAt(data: Bytes, little: bool, base: nat, entsize: nat, ss: seq<Segment>)
    decreases |ss|
  {
    ss == [] || (HeaderAt(data, little, base, ss[0]) && HeadersAt(data, little, base + entsize, entsize, ss[1..]))
  }

  predicate TagAt(data: Bytes, little: bool, at: nat, t: Tag) {
    && t.tag < TWO64 && t.val < TWO64
    && StandsAt(data, at, Pack64(t.tag, little)) && StandsAt(data, at + 8, Pack64(t.val, little))
  }

  /** A null entry, whatever its value. */
  predicate NullAt(data: Bytes, little: bool, at: nat) {
    at + 16 <= |data| && StandsAt(data, at, Pack64(0, little))
  }

  /** The entries stand one after another from `at`, ended by a null entry or by the section's end. */
  predicate EntriesAt(data: Bytes, little: bool, at: nat, end: nat, es: seq<Entry>)
    decreases |es|
  {
    if es == [] then at >= end || NullAt(data, little, at)
    else
      && at < end && EntryOk(es[0]) && TagAt(data, little, at, TagOf(es[0]))
      && EntriesAt(data, little, at + 16, end, es[1..])
  }

  /** The string an entry names stands in the table, with a zero behind it. */
  predicate StringStands(data: Bytes, strtab: nat, e: Entry) {
    match e
    case Needed(at, name) => StandsAt(data, strtab + at, name + [0])
    case Soname(at, name) => StandsAt(data, strtab + at, name + [0])
    case SearchPath(_, at, paths) => StandsAt(data, strtab + at, paths + [0])
    case Strtab(_) => true
    case OtherEntry(_, _) => true
  }

  predicate StringsStand(data: Bytes, strtab: nat, es: seq<Entry>) {
    forall i :: 0 <= i < |es| ==> StringStands(data, strtab, es[i])
  }

  // ----- what the entries come to ------------------------------------------------------------------

  function DepsOf(es: seq<Entry>): seq<Bytes> {
    if es == [] then [] else (if es[0].Needed? then [es[0].name] else []) + DepsOf(es[1..])
  }

  function SearchOf(es: seq<Entry>): seq<Bytes> {
    if es == [] then [] else (if es[0].SearchPath? then Paths(es[0].paths, []) else []) + SearchOf(es[1..])
  }

  function SonameOf(es: seq<Entry>): Option<Bytes> {
    if es == [] then None
    else if SonameOf(es[1..]).Some? then SonameOf(es[1..])
    else if es[0].Soname? then Some(es[0].name)
    else None
  }

  /** The last string table address, wherever it stands among the entries. */
  function StrtabOf(es: seq<Entry>): Option<nat> {
    if es == [] then None
    else if StrtabOf(es[1..]).Some? then StrtabOf(es[1..])
    else if es[0].Strtab? then Some(es[0].vaddr)
    else None
  }

  function LoadsOf(ss: seq<Segment>): seq<Load> {
    if ss == [] then [] else (if ss[0].Loaded? then [ss[0].load] else []) + LoadsOf(ss[1..])
  }

  function DynamicOf(ss: seq<Segment>): Option<Dynamic> {
    if ss == [] then None
    else if DynamicOf(ss[1..]).Some? then DynamicOf(ss[1..])
    else if ss[0].DynamicAt? then Some(ss[0].dyn)
    else None
  }

  function Or<T>(a: Option<T>, b: Option<T>): Option<T> {
    if a.Some? then a else b
  }

  function TagsFor(es: seq<Entry>): seq<Tag> {
    if es == [] then [] else [TagOf(es[0])] + TagsFor(es[1..])
  }

  // ----- reading finds what is there -----------------------------------------------------------------

  lemma SegmentRead(data: Bytes, little: bool, base: nat, seg: Segment, s: Segments)
    requires HeaderAt(data, little, base, seg)
    ensures AddSegment(data, little, base, s) ==
              Ok(match seg
                 case Loaded(l) => s.(loads := s.loads + [l])
                 case DynamicAt(d) => s.(dyn := Some(d))
                 case OtherSegment(_, _, _, _) => s)
  {
    hide U32, U64, Pack32, Pack64, StandsAt;
    match seg
    case Loaded(l) =>
      U32At(data, base, PT_LOAD, little);
      U64At(data, base + 8, l.offset, little);
      U64At(data, base + 16, l.vaddr, little);
      U64At(data, base + 32, l.filesz, little);
    case DynamicAt(d) =>
      U32At(data, base, PT_DYNAMIC, little);
      U64At(data, base + 8, d.offset, little);
      U64At(data, base + 32, d.size, little);
    case OtherSegment(kind, offset, vaddr, filesz) =>
      U32At(data, base, kind, little);
  }

  lemma {:induction false} SegmentsRead(data: Bytes, little: bool, base: nat, entsize: nat, ss: seq<Segment>,
      s: Segments)
    requires HeadersAt(data, little, base, entsize, ss)
    ensures ReadSegments(data, little, base, entsize, |ss|, s) ==
              Ok(Segments(Or(DynamicOf(ss), s.dyn), s.loads + LoadsOf(ss)))
    decreases |ss|
  {
    hide AddSegment, HeaderAt;
    if ss == [] {
      assert s.loads + [] == s.loads;
    } else {
      SegmentRead(data, little, base, ss[0], s);
      var s' := AddSegment(data, little, base, s).value;
      SegmentsRead(data, little, base + entsize, entsize, ss[1..], s');
      LoadsStep(s.loads, ss);
    }
  }

  lemma LoadsStep(loads: seq<Load>, ss: seq<Segment>)
    requires ss != []
    ensures loads + LoadsOf(ss) == (if ss[0].Loaded? then loads + [ss[0].load] else loads) + LoadsOf(ss[1..])
  {
  }

  lemma {:induction false} TagsRead(data: Bytes, little: bool, at: nat, end: nat, es: seq<Entry>, tags: seq<Tag>)
    requires EntriesAt(data, little, at, end, es)
    ensures ReadTags(data, little, at, end, tags) == Ok(tags + TagsFor(es))
    decreases |es|
  {
    hide U64, TagAt, NullAt;
    if es == [] {
      NoneBehind(tags);
      if at < end {
        NullRead(data, little, at);
      }
    } else {
      TagRead(data, little, at, TagOf(es[0]));
      TagsRead(data, little, at + 16, end, es[1..], tags + [TagOf(es[0])]);
      NextEntry(data, little, at, end, es[0], tags);
      hide ReadTags, EntriesAt;
      TagsStep(tags, es);
    }
  }

  lemma NoneBehind<T>(s: seq<T>)
    ensures s + [] == s
  {
  }

  lemma NextEntry(data: Bytes, little: bool, at: nat, end: nat, e: Entry, tags: seq<Tag>)
    requires at < end && EntryOk(e) && at + 16 <= |data|
    requires U64(data, at, little) == TagOf(e).tag && U64(data, at + 8, little) == TagOf(e).val
    ensures ReadTags(data, little, at, end, tags) == ReadTags(data, little, at + 16, end, tags + [TagOf(e)])
  {
    hide U64;
  }

  lemma TagsStep(tags: seq<Tag>, es: seq<Entry>)
    requires es != []
    ensures tags + TagsFor(es) == tags + [TagOf(es[0])] + TagsFor(es[1..])
  {
  }

  lemma TagRead(data: Bytes, little: bool, at: nat, t: Tag)
    requires TagAt(data, little, at, t)
    ensures at + 16 <= |data| && U64(data, at, little) == t.tag && U64(data, at + 8, little) == t.val
  {
    hide U64, Pack64;
    U64At(data, at, t.tag, little);
    U64At(data, at + 8, t.val, little);
  }

  lemma NullRead(data: Bytes, little: bool, at: nat)
    requires NullAt(data, little, at)
    ensures at + 16 <= |data| && U64(data, at, little) == DT_NULL
  {
    hide U64, Pack64;
    U64At(data, at, DT_NULL, little);
  }

  lemma {:induction false} StringTableAppend(a: seq<Tag>, b: seq<Tag>)
    ensures StringTable(a + b) == Or(StringTable(b), StringTable(a))
    decreases |b|
  {
    if b == [] {
      assert a + b == a;
    } else {
      var b' := b[..|b| - 1];
      assert (a + b)[..|a + b| - 1] == a + b';
      StringTableAppend(a, b');
    }
  }

  lemma {:induction false} StrtabRead(es: seq<Entry>)
    requires AllOk(es)
    ensures StringTable(TagsFor(es)) == StrtabOf(es)
    decreases |es|
  {
    if es != [] {
      assert EntryOk(es[0]) && AllOk(es[1..]);
      StrtabRead(es[1..]);
      hide EntryOk, AllOk;
      StringTableAppend([TagOf(es[0])], TagsFor(es[1..]));
      OneTag(es[0]);
    }
  }

  lemma OneTag(e: Entry)
    requires EntryOk(e)
    ensures StringTable([TagOf(e)]) == if e.Strtab? then Some(e.vaddr) else None
  {
    assert [TagOf(e)][..0] == [];
  }

  lemma StringRead(data: Bytes, at: nat, s: Bytes)
    requires NoZero(s) && StandsAt(data, at, s + [0])
    ensures StringAt(data, at) == Ok(s)
  {
    StandsFirst(data, at, s, [0]);
    assert data[at + |s|] == [0][0];
    FindZeroBehind(data, at, |data|, s);
  }

  lemma TagAdds(data: Bytes, strtab: nat, e: Entry, info: Info)
    requires EntryOk(e) && StringStands(data, strtab, e)
    ensures AddTag(data, strtab, TagOf(e), info) ==
              Ok(match e
                 case Needed(_, name) => info.(deps := info.deps + [name])
                 case Soname(_, name) => info.(soname := Some(name))
                 case SearchPath(_, _, paths) => info.(search := info.search + Paths(paths, []))
                 case Strtab(_) => info
                 case OtherEntry(_, _) => info)
  {
    hide StringAt, StandsAt, NoZero, Paths;
    match e
    case Needed(at, name) => StringRead(data, strtab + at, name);
    case Soname(at, name) => StringRead(data, strtab + at, name);
    case SearchPath(_, at, paths) => StringRead(data, strtab + at, paths);
    case Strtab(_) =>
    case OtherEntry(_, _) =>
  }

  predicate AllOk(es: seq<Entry>) {
    forall i :: 0 <= i < |es| ==> EntryOk(es[i])
  }

  function Add(info: Info, es: seq<Entry>): Info {
    Info(info.search + SearchOf(es), info.deps + DepsOf(es), Or(SonameOf(es), info.soname))
  }

  lemma AddOne(info: Info, es: seq<Entry>)
    requires es != []
    ensures var info' := match es[0]
              case Needed(_, name) => info.(deps := info.deps + [name])
              case Soname(_, name) => info.(soname := Some(name))
              case SearchPath(_, _, paths) => info.(search := info.search + Paths(paths, []))
              case Strtab(_) => info
              case OtherEntry(_, _) => info;
            Add(info, es) == Add(info', es[1..])
  {
    hide Paths;
    var d := if es[0].Needed? then [es[0].name] else [];
    var p := if es[0].SearchPath? then Paths(es[0].paths, []) else [];
    assert info.deps + (d + DepsOf(es[1..])) == (info.deps + d) + DepsOf(es[1..]);
    assert info.search + (p + SearchOf(es[1..])) == (info.search + p) + SearchOf(es[1..]);
    assert info.deps + [] == info.deps && info.search + [] == info.search;
  }

  lemma {:induction false} TagsAdd(data: Bytes, strtab: nat, es: seq<Entry>, info: Info)
    requires AllOk(es) && StringsStand(data, strtab, es)
    ensures AddTags(data, strtab, TagsFor(es), info) == Ok(Add(info, es))
    decreases |es|
  {
    if es == [] {
      assert info.deps + [] == info.deps && info.search + [] == info.search;
    } else {
      assert EntryOk(es[0]) && StringStands(data, strtab, es[0]);
      assert AllOk(es[1..]) && StringsStand(data, strtab, es[1..]);
      TagAdds(data, strtab, es[0], info);
      AddOne(info, es);
      assert TagsFor(es)[0] == TagOf(es[0]) && TagsFor(es)[1..] == TagsFor(es[1..]);
      var info' := AddTag(data, strtab, TagOf(es[0]), info).value;
      hide *;
      TagsAdd(data, strtab, es[1..], info');
      NextTag(data, strtab, TagsFor(es), info, info');
    }
  }

  lemma NextTag(data: Bytes, strtab: nat, tags: seq<Tag>, info: Info, info': Info)
    requires tags != [] && AddTag(data, strtab, tags[0], info) == Ok(info')
    ensures AddTags(data, strtab, tags, info) == AddTags(data, strtab, tags[1..], info')
  {
    hide AddTag;
  }

  lemma {:induction false} EntriesOk(data: Bytes, little: bool, at: nat, end: nat, es: seq<Entry>)
    requires EntriesAt(data, little, at, end, es)
    ensures AllOk(es)
    decreases |es|
  {
    if es != [] {
      EntriesOk(data, little, at + 16, end, es[1..]);
      assert forall i :: 0 < i < |es| ==> es[i] == es[1..][i - 1];
    }
  }

  /** What is said where in an ELF file: its byte order, its program headers, its dynamic entries, and the
      strings they name, in the table the addresses lead to. */
  datatype Layout = Layout(little: bool, phoff: nat, entsize: nat, segments: seq<Segment>, entries: seq<Entry>,
      strtab: nat)

  predicate DescribesHeaders(l: Layout, data: Bytes) {
    && |data| >= 0x3a && data[..4] == [0x7f, 0x45, 0x4c, 0x46] && data[4] == 2 && (data[5] == 1 <==> l.little)
    && l.phoff < TWO64 && StandsAt(data, 0x20, Pack64(l.phoff, l.little))
    && l.entsize < 0x10000 && StandsAt(data, 0x36, Pack16(l.entsize, l.little))
    && |l.segments| < 0x10000 && StandsAt(data, 0x38, Pack16(|l.segments|, l.little))
    && HeadersAt(data, l.little, l.phoff, l.entsize, l.segments)
  }

  predicate DescribesEntries(l: Layout, data: Bytes) {
    && DynamicOf(l.segments).Some?
    && (var d := DynamicOf(l.segments).value;
        EntriesAt(data, l.little, d.offset, d.offset + d.size, l.entries))
    && StrtabOf(l.entries).Some?
    && FileOffset(LoadsOf(l.segments), StrtabOf(l.entries).value) == Ok(l.strtab)
    && StringsStand(data, l.strtab, l.entries)
  }

  predicate Describes(l: Layout, data: Bytes) {
    DescribesHeaders(l, data) && DescribesEntries(l, data)
  }

  lemma DynamicRead(data: Bytes, little: bool, d: Dynamic, loads: seq<Load>, es: seq<Entry>, strtab: nat)
    requires EntriesAt(data, little, d.offset, d.offset + d.size, es)
    requires StrtabOf(es).Some? && FileOffset(loads, StrtabOf(es).value) == Ok(strtab)
    requires StringsStand(data, strtab, es)
    ensures InspectDynamic(data, little, Segments(Some(d), loads)) == Ok(Info(SearchOf(es), DepsOf(es), SonameOf(es)))
  {
    hide ReadTags, AddTags, FileOffset, StringTable, StrtabOf, EntriesAt, StringsStand, StandsAt, TagsFor, SearchOf,
        DepsOf, SonameOf, AllOk;
    EntriesOk(data, little, d.offset, d.offset + d.size, es);
    TagsRead(data, little, d.offset, d.offset + d.size, es, []);
    NoneBefore(TagsFor(es));
    StrtabRead(es);
    TagsAdd(data, strtab, es, Info([], [], None));
    AddToNothing(es);
  }

  lemma NoneBefore<T>(s: seq<T>)
    ensures [] + s == s
  {
  }

  lemma AddToNothing(es: seq<Entry>)
    ensures Add(Info([], [], None), es) == Info(SearchOf(es), DepsOf(es), SonameOf(es))
  {
    hide SearchOf, DepsOf, SonameOf;
    assert [] + SearchOf(es) == SearchOf(es) && [] + DepsOf(es) == DepsOf(es);
  }

  /** In either byte order, wherever the string table's address stands among the entries and whichever
      loaded segment holds it: every needed name in order up to the first null entry or the section's
      end, the last soname, and the non-empty search paths. */
  lemma InspectFinds(l: Layout, data: Bytes)
    requires Describes(l, data)
    ensures Inspect(data) == Ok(Info(SearchOf(l.entries), DepsOf(l.entries), SonameOf(l.entries)))
  {
    hide *;
    Parts(l, data);
    EntriesFound(l, data);
    IdentityRead(l, data);
    SegmentsFound(l, data);
    SegmentsThen(l, data);
  }

  lemma Parts(l: Layout, data: Bytes)
    requires Describes(l, data)
    ensures DescribesHeaders(l, data) && DescribesEntries(l, data)
  {
  }

  lemma EntriesFound(l: Layout, data: Bytes)
    requires DescribesEntries(l, data)
    ensures InspectDynamic(data, l.little, Segments(DynamicOf(l.segments), LoadsOf(l.segments))) ==
              Ok(Info(SearchOf(l.entries), DepsOf(l.entries), SonameOf(l.entries)))
  {
    hide EntriesAt, StringsStand, FileOffset, StrtabOf, DynamicOf, LoadsOf, InspectDynamic, SearchOf, DepsOf, SonameOf;
    DynamicRead(data, l.little, DynamicOf(l.segments).value, LoadsOf(l.segments), l.entries, l.strtab);
  }

  lemma IdentityRead(l: Layout, data: Bytes)
    requires DescribesHeaders(l, data)
    ensures |data| >= 0x3a && data[..4] == MAGIC && data[4] == 2 && (data[5] == 1 <==> l.little)
    ensures U64(data, 0x20, l.little) == l.phoff
    ensures U16(data, 0x36, l.little) == l.entsize && U16(data, 0x38, l.little) == |l.segments|
  {
    hide U64, U16, Pack64, Pack16, StandsAt, HeadersAt;
    U64At(data, 0x20, l.phoff, l.little);
    U16At(data, 0x36, l.entsize, l.little);
    U16At(data, 0x38, |l.segments|, l.little);
  }

  lemma SegmentsFound(l: Layout, data: Bytes)
    requires DescribesHeaders(l, data)
    ensures ReadSegments(data, l.little, l.phoff, l.entsize, |l.segments|, Segments(None, [])) ==
              Ok(Segments(DynamicOf(l.segments), LoadsOf(l.segments)))
  {
    hide StandsAt, DynamicOf, LoadsOf, HeadersAt, ReadSegments;
    SegmentsRead(data, l.little, l.phoff, l.entsize, l.segments, Segments(None, []));
    NoneBefore(LoadsOf(l.segments));
  }

  lemma SegmentsThen(l: Layout, data: Bytes)
    requires |data| >= 0x3a && data[..4] == MAGIC && data[4] == 2 && (data[5] == 1 <==> l.little)
    requires U64(data, 0x20, l.little) == l.phoff
    requires U16(data, 0x36, l.little) == l.entsize && U16(data, 0x38, l.little) == |l.segments|
    requires ReadSegments(data, l.little, l.phoff, l.entsize, |l.segments|, Segments(None, [])) ==
               Ok(Segments(DynamicOf(l.segments), LoadsOf(l.segments)))
    ensures Inspect(data) == InspectDynamic(data, l.little, Segments(DynamicOf(l.segments), LoadsOf(l.segments)))
  {
    hide U64, U16, ReadSegments, InspectDynamic, DynamicOf, LoadsOf;
  }

  /** The table's address is resolved through the first loaded segment that holds it, and through none if
      none does. */
  lemma {:induction false} FileOffsetIs(loads: seq<Load>, v: nat)
    ensures FileOffset(loads, v).Ok? ==>
              exists i :: 0 <= i < |loads| && ResolvedThrough(loads, v, i, FileOffset(loads, v).value)
    ensures FileOffset(loads, v).Err? ==>
              FileOffset(loads, v).error == Unmapped && forall j :: 0 <= j < |loads| ==> !HoldsAddress(loads[j], v)
    decreases |loads|
  {
    if loads != [] {
      if HoldsAddress(loads[0], v) {
        assert ResolvedThrough(loads, v, 0, FileOffset(loads, v).value);
      } else {
        FileOffsetIs(loads[1..], v);
        assert forall j :: 0 < j < |loads| ==> loads[j] == loads[1..][j - 1];
        if FileOffset(loads[1..], v).Ok? {
          var i :| 0 <= i < |loads[1..]| && ResolvedThrough(loads[1..], v, i, FileOffset(loads, v).value);
          assert ResolvedThrough(loads, v, i + 1, FileOffset(loads, v).value);
        }
      }
    }
  }

  predicate HoldsAddress(l: Load, v: nat) {
    l.vaddr <= v < l.vaddr + l.filesz
  }

  /** Load `i` is the first to hold the address, and `off` is where that puts it in the file. */
  predicate ResolvedThrough(loads: seq<Load>, v: nat, i: nat, off: nat)
    requires i < |loads|
  {
    && HoldsAddress(loads[i], v) && (forall j :: 0 <= j < i ==> !HoldsAddress(loads[j], v))
    && off == loads[i].offset + (v - loads[i].vaddr)
  }
}
