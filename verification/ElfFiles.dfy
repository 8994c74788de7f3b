/** What else `inspect_elf` of scripts/binfmt.py makes of a file: its search paths, and the files it refuses. */
module ElfFiles {
  import opened Text
  import opened Binary
  import opened Elf

  // ----- search paths ----------------------------------------------------------------------------------

  /** Parts with a colon between them. */
  function Joined(parts: seq<Bytes>): Bytes
    requires parts != []
  {
    if |parts| == 1 then parts[0] else parts[0] + ([0x3a] + Joined(parts[1..]))
  }

  predicate NoColons(parts: seq<Bytes>) {
    forall i :: 0 <= i < |parts| ==> 0x3a !in parts[i]
  }

  function NotEmpty(parts: seq<Bytes>): seq<Bytes> {
    if parts == [] then [] else (if parts[0] == [] then [] else [parts[0]]) + NotEmpty(parts[1..])
  }

  lemma {:induction false} PartRead(part: Bytes, front: Bytes, later: Bytes)
    requires 0x3a !in part
    ensures Paths(part + later, front) == Paths(later, front + part)
    decreases |part|
  {
    if part == [] {
      assert part + later == later && front + part == front;
    } else {
      assert (part + later)[0] == part[0] && (part + later)[1..] == part[1..] + later;
      assert part[0] in part;
      PartRead(part[1..], front + [part[0]], later);
      assert front + [part[0]] + part[1..] == front + part;
    }
  }

  /** Search paths are the parts between colons, in order, the empty ones left out. */
  lemma {:induction false} PathsAre(parts: seq<Bytes>)
    requires parts != [] && NoColons(parts)
    ensures Paths(Joined(parts), []) == NotEmpty(parts)
    decreases |parts|
  {
    var first := parts[0];
    assert 0x3a !in first;
    assert [] + first == first;
    if |parts| == 1 {
      PartRead(first, [], []);
      assert first + [] == first && parts[1..] == [];
    } else {
      var later := Joined(parts[1..]);
      PartRead(first, [], [0x3a] + later);
      assert ([0x3a] + later)[0] == 0x3a && ([0x3a] + later)[1..] == later;
      PathsAre(parts[1..]);
    }
  }

  /** Every string is such parts. */
  lemma {:induction false} PartsOf(s: Bytes) returns (parts: seq<Bytes>)
    ensures parts != [] && NoColons(parts) && Joined(parts) == s
    decreases |s|
  {
    if s == [] {
      parts := [[]];
    } else {
      var more := PartsOf(s[1..]);
      assert s == [s[0]] + s[1..];
      if s[0] == 0x3a {
        parts := [[]] + more;
        assert parts[1..] == more && [] + ([0x3a] + Joined(more)) == [0x3a] + Joined(more);
      } else {
        parts := [[s[0]] + more[0]] + more[1..];
        FirstLonger(s[0], more);
      }
    }
  }

  lemma FirstLonger(b: Byte, parts: seq<Bytes>)
    requires parts != [] && NoColons(parts) && b != 0x3a
    ensures var longer := [[b] + parts[0]] + parts[1..];
            NoColons(longer) && Joined(longer) == [b] + Joined(parts)
  {
    var longer := [[b] + parts[0]] + parts[1..];
    assert longer[1..] == parts[1..];
    forall i | 0 <= i < |longer|
      ensures 0x3a !in longer[i]
    {
      assert 0x3a !in parts[i];
    }
    if |parts| > 1 {
      Thrice([b], parts[0], [0x3a] + Joined(parts[1..]));
    }
  }

  lemma Thrice(a: Bytes, b: Bytes, c: Bytes)
    ensures (a + b) + c == a + (b + c)
  {
  }

  // ----- refusals --------------------------------------------------------------------------------------

  lemma {:induction false} SegmentsNotByMagic(data: Bytes, little: bool, base: nat, entsize: nat, n: nat, s: Segments)
    ensures ReadSegments(data, little, base, entsize, n, s) != Err(NotElf64)
    decreases n
  {
    hide AddSegment;
    if n > 0 {
      SegmentNotByMagic(data, little, base, s);
      var step := AddSegment(data, little, base, s);
      if step.Ok? {
        SegmentsNotByMagic(data, little, base + entsize, entsize, n - 1, step.value);
      }
    }
  }

  lemma SegmentNotByMagic(data: Bytes, little: bool, base: nat, s: Segments)
    ensures AddSegment(data, little, base, s) != Err(NotElf64)
  {
    hide U32, U64;
  }

  lemma {:induction false} TagsNotByMagic(data: Bytes, little: bool, at: nat, end: nat, tags: seq<Tag>)
    ensures ReadTags(data, little, at, end, tags) != Err(NotElf64)
    decreases end - at
  {
    hide U64;
    if at < end && at + 16 <= |data| {
      TagsNotByMagic(data, little, at + 16, end, tags + [Tag(U64(data, at, little), U64(data, at + 8, little))]);
    }
  }

  lemma {:induction false} InfoNotByMagic(data: Bytes, strtab: nat, tags: seq<Tag>, info: Info)
    ensures AddTags(data, strtab, tags, info) != Err(NotElf64)
    decreases |tags|
  {
    hide AddTag;
    if tags != [] {
      TagNotByMagic(data, strtab, tags[0], info);
      var step := AddTag(data, strtab, tags[0], info);
      if step.Ok? {
        InfoNotByMagic(data, strtab, tags[1..], step.value);
      }
    }
  }

  lemma TagNotByMagic(data: Bytes, strtab: nat, t: Tag, info: Info)
    ensures AddTag(data, strtab, t, info) != Err(NotElf64)
  {
    hide Paths, FindZero;
  }

  lemma DynamicNotByMagic(data: Bytes, little: bool, s: Segments)
    ensures InspectDynamic(data, little, s) != Err(NotElf64)
  {
    hide ReadTags, AddTags, FileOffset, StringTable;
    if s.dyn.Some? {
      var d := s.dyn.value;
      TagsNotByMagic(data, little, d.offset, d.offset + d.size, []);
      var tags := ReadTags(data, little, d.offset, d.offset + d.size, []);
      if tags.Ok? && StringTable(tags.value).Some? {
        FileOffsetIs(s.loads, StringTable(tags.value).value);
        var strtab := FileOffset(s.loads, StringTable(tags.value).value);
        if strtab.Ok? {
          InfoNotByMagic(data, strtab.value, tags.value, Info([], [], None));
        }
      }
    }
  }

  /** Four bytes that say ELF, and behind them one that says sixty-four bits. */
  predicate SaysElf(data: Bytes) {
    |data| >= 4 && data[0] == 0x7F && data[1] == 0x45 && data[2] == 0x4C && data[3] == 0x46
  }

  /** A file is called no 64-bit ELF exactly when its first bytes say so, whatever else it holds. */
  lemma RefusedByMagic(data: Bytes)
    ensures Inspect(data) == Err(NotElf64) <==> !SaysElf(data) || (|data| > 4 && data[4] != 2)
  {
    MagicIs(data);
    hide U64, U16, ReadSegments, InspectDynamic, SaysElf;
    if |data| >= 0x3a {
      var little := data[5] == 1;
      var phoff, entsize, n := U64(data, 0x20, little), U16(data, 0x36, little), U16(data, 0x38, little);
      SegmentsNotByMagic(data, little, phoff, entsize, n, Segments(None, []));
      var s := ReadSegments(data, little, phoff, entsize, n, Segments(None, []));
      if s.Ok? {
        DynamicNotByMagic(data, little, s.value);
      }
    }
  }

  lemma MagicIs(data: Bytes)
    ensures |data| >= 4 && data[..4] == MAGIC <==> SaysElf(data)
  {
    if |data| >= 4 {
      assert data[..4] == [data[0], data[1], data[2], data[3]];
    }
  }

  /** Headers without a dynamic segment are refused for that. */
  lemma NoDynamicSegment(l: Layout, data: Bytes)
    requires DescribesHeaders(l, data) && DynamicOf(l.segments).None?
    ensures Inspect(data) == Err(NoDynamic)
  {
    hide DescribesHeaders, DynamicOf, ReadSegments, U64, U16;
    IdentityRead(l, data);
    SegmentsFound(l, data);
    SegmentsThen(l, data);
  }

  /** The dynamic section of the headers holds these entries. */
  predicate HoldsEntries(l: Layout, data: Bytes) {
    && DescribesHeaders(l, data) && DynamicOf(l.segments).Some?
    && var d := DynamicOf(l.segments).value; EntriesAt(data, l.little, d.offset, d.offset + d.size, l.entries)
  }

  /** So are entries that give no string table, or one at an address no loaded segment holds. */
  lemma NoTable(l: Layout, data: Bytes)
    requires HoldsEntries(l, data)
    ensures StrtabOf(l.entries).None? ==> Inspect(data) == Err(NoStringTable)
    ensures StrtabOf(l.entries).Some? &&
            (forall i :: 0 <= i < |LoadsOf(l.segments)| ==>
               !HoldsAddress(LoadsOf(l.segments)[i], StrtabOf(l.entries).value)) ==>
              Inspect(data) == Err(Unmapped)
  {
    hide DescribesHeaders, DynamicOf, LoadsOf, EntriesAt, ReadSegments, ReadTags, AddTags, FileOffset, StrtabOf, U64,
        U16, TagsFor, StringTable, AllOk;
    IdentityRead(l, data);
    SegmentsFound(l, data);
    SegmentsThen(l, data);
    var d := DynamicOf(l.segments).value;
    EntriesOk(data, l.little, d.offset, d.offset + d.size, l.entries);
    TagsRead(data, l.little, d.offset, d.offset + d.size, l.entries, []);
    NoneBefore(TagsFor(l.entries));
    StrtabRead(l.entries);
    if StrtabOf(l.entries).Some? {
      FileOffsetIs(LoadsOf(l.segments), StrtabOf(l.entries).value);
    }
  }
}
