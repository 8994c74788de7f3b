/** A small 64-bit ELF file, built for any list of needed names in either byte order: one loaded segment over the
    whole file, a dynamic section, and a string table behind it. It shows that there are files of the kind the
    results about `inspect_elf` speak of, and that reading undoes building. */
module ElfBuild {
  import opened Text
  import opened Binary
  import opened Elf

  const PHOFF: nat := 0x40
  const ENTSIZE: nat := 0x38
  const DYNAMIC: nat := 0xb0

  function Zeros(n: nat): (z: Bytes)
    ensures |z| == n
  {
    seq(n, _ => 0)
  }

  /** A program header. */
  function Segment(little: bool, kind: nat, offset: nat, filesz: nat): Bytes
    requires kind < TWO32 && offset < TWO64 && filesz < TWO64
  {
    Pack32(kind, little) + (Zeros(4) + (Pack64(offset, little) + (Pack64(offset, little) +
      (Pack64(offset, little) + (Pack64(filesz, little) + Zeros(16))))))
  }

  function TagBytes(little: bool, t: Tag): Bytes
    requires t.tag < TWO64 && t.val < TWO64
  {
    Pack64(t.tag, little) + Pack64(t.val, little)
  }

  /** The string table: an empty string first, as is usual, then the names. */
  function Strings(names: seq<Bytes>): Bytes {
    if names == [] then [] else (names[0] + [0]) + Strings(names[1..])
  }

  /** The dynamic entries: the names, the table's address, and a null entry with some value. */
  function Entries(names: seq<Bytes>, at: nat, strtab: nat): seq<Entry> {
    if names == [] then [Strtab(strtab)] else [Needed(at, names[0])] + Entries(names[1..], at + |names[0]| + 1, strtab)
  }

  predicate Fits(es: seq<Entry>) {
    forall i :: 0 <= i < |es| ==> TagOf(es[i]).tag < TWO64 && TagOf(es[i]).val < TWO64
  }

  function EntryBytes(little: bool, es: seq<Entry>, junk: nat): Bytes
    requires Fits(es) && junk < TWO64
  {
    if es == [] then TagBytes(little, Tag(DT_NULL, junk))
    else TagBytes(little, TagOf(es[0])) + EntryBytes(little, es[1..], junk)
  }

  function TableAt(names: seq<Bytes>): nat {
    DYNAMIC + 16 * (|names| + 2)
  }

  function FileSize(names: seq<Bytes>): nat {
    TableAt(names) + 1 + |Strings(names)|
  }

  predicate Buildable(names: seq<Bytes>, junk: nat) {
    FileSize(names) < TWO64 && junk < TWO64 && forall i :: 0 <= i < |names| ==> NoZero(names[i])
  }

  lemma {:induction false} EntriesFit(names: seq<Bytes>, at: nat, strtab: nat)
    requires at + |Strings(names)| < TWO64 && strtab < TWO64
    ensures Fits(Entries(names, at, strtab))
  {
    if names != [] {
      EntriesFit(names[1..], at + |names[0]| + 1, strtab);
    }
  }

  /** The identification bytes. */
  function Ident(little: bool): (b: Bytes)
    ensures |b| == 0x20
  {
    MAGIC + [2, if little then 1 else 2] + Zeros(26)
  }

  function Header(little: bool): Bytes {
    Ident(little) + (Pack64(PHOFF, little) + (Zeros(14) + (Pack16(ENTSIZE, little) + (Pack16(2, little) + Zeros(6)))))
  }

  function Build(little: bool, names: seq<Bytes>, junk: nat): Bytes
    requires Buildable(names, junk)
  {
    EntriesFit(names, 1, TableAt(names));
    Header(little) + (Segment(little, PT_LOAD, 0, FileSize(names)) +
      (Segment(little, PT_DYNAMIC, DYNAMIC, 16 * (|names| + 2)) +
        (EntryBytes(little, Entries(names, 1, TableAt(names)), junk) + ([0] + Strings(names)))))
  }

  function LayoutOf(little: bool, names: seq<Bytes>): Layout {
    Layout(little, PHOFF, ENTSIZE,
           [Loaded(Load(0, FileSize(names), 0)), DynamicAt(Dynamic(DYNAMIC, 16 * (|names| + 2)))],
           Entries(names, 1, TableAt(names)), TableAt(names))
  }

  // ----- what stands where ---------------------------------------------------------------------------

  lemma Itself(data: Bytes)
    ensures StandsAt(data, 0, data)
  {
  }

  lemma SegmentStands(data: Bytes, base: nat, little: bool, kind: nat, offset: nat, filesz: nat)
    requires kind < TWO32 && offset < TWO64 && filesz < TWO64
    requires StandsAt(data, base, Segment(little, kind, offset, filesz))
    ensures base + 0x38 <= |data|
    ensures StandsAt(data, base, Pack32(kind, little)) && StandsAt(data, base + 8, Pack64(offset, little))
    ensures StandsAt(data, base + 16, Pack64(offset, little)) && StandsAt(data, base + 32, Pack64(filesz, little))
  {
    var o, z := Pack64(offset, little), Pack64(filesz, little);
    hide *;
    SegmentIs(little, kind, offset, filesz);
    Within(data, base, Segment(little, kind, offset, filesz));
    StandsFirst(data, base, Pack32(kind, little), Zeros(4) + (o + (o + (o + (z + Zeros(16))))));
    StandsFirst(data, base + 4, Zeros(4), o + (o + (o + (z + Zeros(16)))));
    StandsFirst(data, base + 8, o, o + (o + (z + Zeros(16))));
    StandsFirst(data, base + 16, o, o + (z + Zeros(16)));
    StandsFirst(data, base + 24, o, z + Zeros(16));
    StandsFirst(data, base + 32, z, Zeros(16));
  }

  lemma SegmentIs(little: bool, kind: nat, offset: nat, filesz: nat)
    requires kind < TWO32 && offset < TWO64 && filesz < TWO64
    ensures var o := Pack64(offset, little);
            Segment(little, kind, offset, filesz) ==
              Pack32(kind, little) + (Zeros(4) + (o + (o + (o + (Pack64(filesz, little) + Zeros(16))))))
    ensures |Segment(little, kind, offset, filesz)| == 0x38
  {
    hide Pack32, Pack64;
  }

  lemma Within(data: Bytes, at: nat, part: Bytes)
    requires StandsAt(data, at, part)
    ensures at + |part| <= |data|
  {
  }

  lemma TagStands(data: Bytes, at: nat, little: bool, t: Tag)
    requires t.tag < TWO64 && t.val < TWO64 && StandsAt(data, at, TagBytes(little, t))
    ensures TagAt(data, little, at, t) && at + 16 <= |data|
  {
    hide Pack64, StandsAt;
    Within(data, at, TagBytes(little, t));
    StandsFirst(data, at, Pack64(t.tag, little), Pack64(t.val, little));
  }

  lemma {:induction false} EntriesStand(data: Bytes, at: nat, end: nat, little: bool, es: seq<Entry>, junk: nat)
    requires Fits(es) && junk < TWO64 && StandsAt(data, at, EntryBytes(little, es, junk))
    requires end == at + 16 * (|es| + 1) && AllOk(es)
    ensures EntriesAt(data, little, at, end, es)
    decreases |es|
  {
    hide StandsAt, EntryOk, TagBytes, TagAt;
    if es == [] {
      TagStands(data, at, little, Tag(DT_NULL, junk));
      NullStands(data, at, little, junk);
    } else {
      StandsFirst(data, at, TagBytes(little, TagOf(es[0])), EntryBytes(little, es[1..], junk));
      TagStands(data, at, little, TagOf(es[0]));
      TagSize(little, TagOf(es[0]));
      EntriesStand(data, at + 16, end, little, es[1..], junk);
    }
  }

  lemma NullStands(data: Bytes, at: nat, little: bool, junk: nat)
    requires TagAt(data, little, at, Tag(DT_NULL, junk)) && at + 16 <= |data|
    ensures NullAt(data, little, at)
  {
    hide Pack64, StandsAt;
  }

  lemma TagSize(little: bool, t: Tag)
    requires t.tag < TWO64 && t.val < TWO64
    ensures |TagBytes(little, t)| == 16
  {
    hide Pack64;
  }

  lemma {:induction false} EntryBytesSize(little: bool, es: seq<Entry>, junk: nat)
    requires Fits(es) && junk < TWO64
    ensures |EntryBytes(little, es, junk)| == 16 * (|es| + 1)
    decreases |es|
  {
    hide TagBytes;
    if es == [] {
      TagSize(little, Tag(DT_NULL, junk));
    } else {
      TagSize(little, TagOf(es[0]));
      EntryBytesSize(little, es[1..], junk);
    }
  }

  lemma {:induction false} StringsStandThere(data: Bytes, strtab: nat, at: nat, names: seq<Bytes>, v: nat)
    requires StandsAt(data, strtab + at, Strings(names))
    ensures StringsStand(data, strtab, Entries(names, at, v))
    decreases |names|
  {
    hide StandsAt;
    if names != [] {
      StandsFirst(data, strtab + at, names[0] + [0], Strings(names[1..]));
      StringsStandThere(data, strtab, at + |names[0]| + 1, names[1..], v);
      OneMoreString(data, strtab, Needed(at, names[0]), Entries(names[1..], at + |names[0]| + 1, v));
    }
  }

  lemma OneMoreString(data: Bytes, strtab: nat, e: Entry, es: seq<Entry>)
    requires StringStands(data, strtab, e) && StringsStand(data, strtab, es)
    ensures StringsStand(data, strtab, [e] + es)
  {
    hide StringStands;
  }

  lemma {:induction false} EntriesSay(names: seq<Bytes>, at: nat, v: nat)
    requires at + |Strings(names)| < TWO64 && v < TWO64 && forall i :: 0 <= i < |names| ==> NoZero(names[i])
    ensures var es := Entries(names, at, v);
            && |es| == |names| + 1 && AllOk(es)
            && DepsOf(es) == names && SearchOf(es) == [] && SonameOf(es) == None && StrtabOf(es) == Some(v)
    decreases |names|
  {
    EntriesSplit(names, at, v);
    if names == [] {
      LastEntry(v);
    } else {
      EntriesSay(names[1..], at + |names[0]| + 1, v);
      hide Entries, AllOk, DepsOf, SearchOf, SonameOf, StrtabOf, NoZero, Strings;
      MoreEntries(Needed(at, names[0]), Entries(names[1..], at + |names[0]| + 1, v));
      FirstName(names);
    }
  }

  lemma FirstName(names: seq<Bytes>)
    requires names != []
    ensures names == [names[0]] + names[1..]
  {
  }

  lemma EntriesSplit(names: seq<Bytes>, at: nat, v: nat)
    requires at + |Strings(names)| < TWO64 && forall i :: 0 <= i < |names| ==> NoZero(names[i])
    ensures names == [] ==> Entries(names, at, v) == [Strtab(v)]
    ensures names != [] ==>
      && Entries(names, at, v) == [Needed(at, names[0])] + Entries(names[1..], at + |names[0]| + 1, v)
      && EntryOk(Needed(at, names[0])) && at + |names[0]| + 1 + |Strings(names[1..])| < TWO64
  {
    hide NoZero;
  }

  lemma LastEntry(v: nat)
    requires v < TWO64
    ensures var es := [Strtab(v)];
            AllOk(es) && DepsOf(es) == [] && SearchOf(es) == [] && SonameOf(es) == None && StrtabOf(es) == Some(v)
  {
    assert [Strtab(v)][1..] == [];
  }

  lemma MoreEntries(e: Entry, es: seq<Entry>)
    requires e.Needed? && EntryOk(e) && AllOk(es)
    ensures var more := [e] + es;
            && AllOk(more) && DepsOf(more) == [e.name] + DepsOf(es) && SearchOf(more) == SearchOf(es)
            && SonameOf(more) == SonameOf(es) && StrtabOf(more) == StrtabOf(es)
  {
    hide EntryOk;
    assert ([e] + es)[0] == e && ([e] + es)[1..] == es;
    assert [] + SearchOf(es) == SearchOf(es);
  }

  lemma HeaderSize(little: bool)
    ensures |Header(little)| == PHOFF
  {
    hide Pack64, Pack16;
  }

  lemma HeaderStands(data: Bytes, little: bool)
    requires StandsAt(data, 0, Header(little))
    ensures StandsAt(data, 0, Ident(little)) && StandsAt(data, 0x20, Pack64(PHOFF, little))
    ensures StandsAt(data, 0x36, Pack16(ENTSIZE, little)) && StandsAt(data, 0x38, Pack16(2, little))
  {
    var p, e, n := Pack64(PHOFF, little), Pack16(ENTSIZE, little), Pack16(2, little);
    hide StandsAt, Pack64, Pack16, Ident;
    StandsFirst(data, 0, Ident(little), p + (Zeros(14) + (e + (n + Zeros(6)))));
    StandsFirst(data, 0x20, p, Zeros(14) + (e + (n + Zeros(6))));
    StandsFirst(data, 0x28, Zeros(14), e + (n + Zeros(6)));
    StandsFirst(data, 0x36, e, n + Zeros(6));
    StandsFirst(data, 0x38, n, Zeros(6));
  }

  lemma IdentRead(data: Bytes, little: bool)
    requires StandsAt(data, 0, Ident(little))
    ensures |data| >= 0x20 && data[..4] == MAGIC && data[4] == 2 && (data[5] == 1 <==> little)
  {
    var b := Ident(little);
    assert data[..0x20] == b;
    assert data[..4] == b[..4] && data[4] == b[4] && data[5] == b[5];
  }

  /** Five parts in a row, each where the ones before it end. */
  lemma FiveParts(data: Bytes, a: Bytes, b: Bytes, c: Bytes, d: Bytes, e: Bytes)
    requires data == a + (b + (c + (d + e)))
    ensures |data| == |a| + |b| + |c| + |d| + |e|
    ensures StandsAt(data, 0, a) && StandsAt(data, |a|, b) && StandsAt(data, |a| + |b|, c)
    ensures StandsAt(data, |a| + |b| + |c|, d) && StandsAt(data, |a| + |b| + |c| + |d|, e)
  {
    hide StandsAt;
    Itself(data);
    StandsFirst(data, 0, a, b + (c + (d + e)));
    StandsFirst(data, |a|, b, c + (d + e));
    StandsFirst(data, |a| + |b|, c, d + e);
    StandsFirst(data, |a| + |b| + |c|, d, e);
  }

  /** The parts of the file, each where the headers say it is. */
  lemma PartsStand(little: bool, names: seq<Bytes>, junk: nat)
    requires Buildable(names, junk)
    ensures Fits(Entries(names, 1, TableAt(names)))
    ensures var data, es := Build(little, names, junk), Entries(names, 1, TableAt(names));
            && |data| == FileSize(names)
            && StandsAt(data, 0, Header(little))
            && StandsAt(data, PHOFF, Segment(little, PT_LOAD, 0, FileSize(names)))
            && StandsAt(data, PHOFF + ENTSIZE, Segment(little, PT_DYNAMIC, DYNAMIC, 16 * (|names| + 2)))
            && StandsAt(data, DYNAMIC, EntryBytes(little, es, junk))
            && StandsAt(data, TableAt(names) + 1, Strings(names))
  {
    hide *;
    BuildableSays(names, junk);
    PartSizes(little, names, junk);
    Places(names);
    var es, size := Entries(names, 1, TableAt(names)), 16 * (|names| + 2);
    var load, dyn := Segment(little, PT_LOAD, 0, FileSize(names)), Segment(little, PT_DYNAMIC, DYNAMIC, size);
    BuildIs(little, names, junk);
    var data, entries := Build(little, names, junk), EntryBytes(little, es, junk);
    FiveParts(data, Header(little), load, dyn, entries, [0] + Strings(names));
    StandsFirst(data, TableAt(names), [0], Strings(names));
  }

  lemma Places(names: seq<Bytes>)
    ensures PHOFF + ENTSIZE + ENTSIZE == DYNAMIC && DYNAMIC + 16 * (|names| + 2) == TableAt(names)
    ensures TableAt(names) + 1 + |Strings(names)| == FileSize(names)
    ensures PT_LOAD < TWO32 && PT_DYNAMIC < TWO32 && DYNAMIC < TWO64 && 0 < TWO64
  {
  }

  lemma BuildIs(little: bool, names: seq<Bytes>, junk: nat)
    requires Buildable(names, junk) && Fits(Entries(names, 1, TableAt(names)))
    ensures Build(little, names, junk) ==
              Header(little) + (Segment(little, PT_LOAD, 0, FileSize(names)) +
                (Segment(little, PT_DYNAMIC, DYNAMIC, 16 * (|names| + 2)) +
                  (EntryBytes(little, Entries(names, 1, TableAt(names)), junk) + ([0] + Strings(names)))))
  {
    hide Header, Segment, EntryBytes, Entries, Strings, Fits, NoZero;
  }

  lemma PartSizes(little: bool, names: seq<Bytes>, junk: nat)
    requires Buildable(names, junk)
    ensures Fits(Entries(names, 1, TableAt(names)))
    ensures |Header(little)| == PHOFF
    ensures |EntryBytes(little, Entries(names, 1, TableAt(names)), junk)| == 16 * (|names| + 2)
    ensures |Segment(little, PT_LOAD, 0, FileSize(names))| == ENTSIZE
    ensures |Segment(little, PT_DYNAMIC, DYNAMIC, 16 * (|names| + 2))| == ENTSIZE
  {
    hide Header, Segment, EntryBytes, Entries, Strings, Fits, NoZero;
    EntriesFit(names, 1, TableAt(names));
    EntriesSay(names, 1, TableAt(names));
    EntryBytesSize(little, Entries(names, 1, TableAt(names)), junk);
    HeaderSize(little);
    SegmentIs(little, PT_LOAD, 0, FileSize(names));
    SegmentIs(little, PT_DYNAMIC, DYNAMIC, 16 * (|names| + 2));
  }

  lemma SegmentsSay(little: bool, names: seq<Bytes>)
    requires FileSize(names) < TWO64
    ensures var l := LayoutOf(little, names);
            l == Layout(little, PHOFF, ENTSIZE, l.segments, Entries(names, 1, TableAt(names)), TableAt(names))
    ensures var ss := LayoutOf(little, names).segments;
            && LoadsOf(ss) == [Load(0, FileSize(names), 0)]
            && DynamicOf(ss) == Some(Dynamic(DYNAMIC, 16 * (|names| + 2)))
    ensures FileOffset([Load(0, FileSize(names), 0)], TableAt(names)) == Ok(TableAt(names))
  {
    hide Entries, LoadsOf, DynamicOf, FileOffset, FileSize, Strings;
    TwoSegments(Load(0, FileSize(names), 0), Dynamic(DYNAMIC, 16 * (|names| + 2)));
    SizeAbove(names);
    OffsetThere(FileSize(names), TableAt(names));
  }

  lemma TwoSegments(load: Load, dyn: Dynamic)
    ensures LoadsOf([Loaded(load), DynamicAt(dyn)]) == [load] && DynamicOf([Loaded(load), DynamicAt(dyn)]) == Some(dyn)
  {
    var l, d := Loaded(load), DynamicAt(dyn);
    assert [l, d][1..] == [d] && [d][1..] == [];
    assert DynamicOf([d]) == Some(dyn) && LoadsOf([d]) == [];
  }

  lemma OffsetThere(size: nat, v: nat)
    requires v < size
    ensures FileOffset([Load(0, size, 0)], v) == Elf.Ok(v)
  {
  }

  lemma SizeAbove(names: seq<Bytes>)
    ensures TableAt(names) < FileSize(names)
  {
  }

  lemma LoadStands(data: Bytes, little: bool, base: nat, filesz: nat)
    requires filesz < TWO64 && StandsAt(data, base, Segment(little, PT_LOAD, 0, filesz))
    ensures HeaderAt(data, little, base, Loaded(Load(0, filesz, 0)))
  {
    hide Segment, StandsAt, Pack32, Pack64;
    SegmentStands(data, base, little, PT_LOAD, 0, filesz);
  }

  lemma DynamicStands(data: Bytes, little: bool, base: nat, offset: nat, size: nat)
    requires offset < TWO64 && size < TWO64 && StandsAt(data, base, Segment(little, PT_DYNAMIC, offset, size))
    ensures HeaderAt(data, little, base, DynamicAt(Dynamic(offset, size)))
  {
    hide Segment, StandsAt, Pack32, Pack64;
    SegmentStands(data, base, little, PT_DYNAMIC, offset, size);
  }

  lemma TwoHeaders(data: Bytes, little: bool, base: nat, entsize: nat, a: Elf.Segment, b: Elf.Segment)
    requires HeaderAt(data, little, base, a) && HeaderAt(data, little, base + entsize, b)
    ensures HeadersAt(data, little, base, entsize, [a, b])
  {
    hide HeaderAt;
    assert [a, b][1..] == [b] && [b][1..] == [];
    assert HeadersAt(data, little, base + entsize, entsize, [b]);
  }

  lemma HeadersDescribed(little: bool, names: seq<Bytes>, junk: nat)
    requires Buildable(names, junk)
    ensures DescribesHeaders(LayoutOf(little, names), Build(little, names, junk))
  {
    var data := Build(little, names, junk);
    PartsStand(little, names, junk);
    hide Build, FileSize, Entries, HeadersAt, StandsAt, Pack64, Pack16, Header, Segment, EntryBytes, Strings, Ident;
    HeaderStands(data, little);
    IdentRead(data, little);
    PartsDescribed(little, names, junk);
  }

  lemma PartsDescribed(little: bool, names: seq<Bytes>, junk: nat)
    requires Buildable(names, junk)
    ensures var data, size := Build(little, names, junk), 16 * (|names| + 2);
            && HeadersAt(data, little, PHOFF, ENTSIZE,
                 [Loaded(Load(0, FileSize(names), 0)), DynamicAt(Dynamic(DYNAMIC, size))])
  {
    var data, size := Build(little, names, junk), 16 * (|names| + 2);
    PartsStand(little, names, junk);
    hide Build, StandsAt, HeadersAt, HeaderAt, Header, Segment, EntryBytes, Strings, Entries, Ident, Pack64, Pack16;
    LoadStands(data, little, PHOFF, FileSize(names));
    DynamicStands(data, little, PHOFF + ENTSIZE, DYNAMIC, size);
    TwoHeaders(data, little, PHOFF, ENTSIZE, Loaded(Load(0, FileSize(names), 0)), DynamicAt(Dynamic(DYNAMIC, size)));
  }

  lemma EntriesDescribed(little: bool, names: seq<Bytes>, junk: nat)
    requires Buildable(names, junk)
    ensures DescribesEntries(LayoutOf(little, names), Build(little, names, junk))
  {
    hide *;
    var data, es, v := Build(little, names, junk), Entries(names, 1, TableAt(names)), TableAt(names);
    EntriesThere(little, names, junk);
    StringsThere(little, names, junk);
    SegmentsSay(little, names);
    EntriesSay(names, 1, v);
    var d, load := Dynamic(DYNAMIC, 16 * (|names| + 2)), Load(0, FileSize(names), 0);
    DescribedBy(LayoutOf(little, names), data, little, d, es, v, load);
  }

  lemma DescribedBy(l: Layout, data: Bytes, little: bool, d: Dynamic, es: seq<Entry>, v: nat, load: Load)
    requires l == Layout(little, PHOFF, ENTSIZE, l.segments, es, v)
    requires DynamicOf(l.segments) == Some(d) && LoadsOf(l.segments) == [load]
    requires EntriesAt(data, little, d.offset, d.offset + d.size, es) && StringsStand(data, v, es)
    requires StrtabOf(es) == Some(v) && FileOffset([load], v) == Elf.Ok(v)
    ensures DescribesEntries(l, data)
  {
    hide EntriesAt, StringsStand, StrtabOf, FileOffset, DynamicOf, LoadsOf;
  }

  lemma EntriesThere(little: bool, names: seq<Bytes>, junk: nat)
    requires Buildable(names, junk)
    ensures var end := DYNAMIC + 16 * (|names| + 2);
            EntriesAt(Build(little, names, junk), little, DYNAMIC, end, Entries(names, 1, TableAt(names)))
    ensures FileSize(names) < TWO64 && 1 + |Strings(names)| < TWO64 && TableAt(names) < TWO64
    ensures forall i :: 0 <= i < |names| ==> NoZero(names[i])
  {
    hide *;
    BuildableSays(names, junk);
    PartsStand(little, names, junk);
    EntriesSay(names, 1, TableAt(names));
    var end := DYNAMIC + 16 * (|names| + 2);
    EntriesStand(Build(little, names, junk), DYNAMIC, end, little, Entries(names, 1, TableAt(names)), junk);
  }

  lemma BuildableSays(names: seq<Bytes>, junk: nat)
    requires Buildable(names, junk)
    ensures FileSize(names) < TWO64 && 1 + |Strings(names)| < TWO64 && TableAt(names) < TWO64 && junk < TWO64
    ensures forall i :: 0 <= i < |names| ==> NoZero(names[i])
  {
    hide NoZero, Strings;
  }

  lemma StringsThere(little: bool, names: seq<Bytes>, junk: nat)
    requires Buildable(names, junk)
    ensures StringsStand(Build(little, names, junk), TableAt(names), Entries(names, 1, TableAt(names)))
  {
    hide *;
    PartsStand(little, names, junk);
    StringsStandThere(Build(little, names, junk), TableAt(names), 1, names, TableAt(names));
  }

  /** Such a file is one the results about `inspect_elf` speak of. */
  lemma BuiltIsDescribed(little: bool, names: seq<Bytes>, junk: nat)
    requires Buildable(names, junk)
    ensures Describes(LayoutOf(little, names), Build(little, names, junk))
  {
    HeadersDescribed(little, names, junk);
    EntriesDescribed(little, names, junk);
    hide Build, DescribesHeaders, DescribesEntries;
  }

  /** Reading undoes building: the names come back, in order, in either byte order, whatever the null entry's
      value. */
  lemma BuiltIsRead(little: bool, names: seq<Bytes>, junk: nat)
    requires Buildable(names, junk)
    ensures Inspect(Build(little, names, junk)) == Elf.Ok(Info([], names, None))
  {
    BuiltIsDescribed(little, names, junk);
    EntriesSay(names, 1, TableAt(names));
    hide Build, Describes, Entries, Inspect;
    InspectFinds(LayoutOf(little, names), Build(little, names, junk));
  }
}
