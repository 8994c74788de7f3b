/** Thin Mach-O files by their bytes, in either byte order and word size and with any load commands, and what the parser
    of scripts/binfmt.py reads off them. */
module MachOFiles {
  import opened Text
  import opened Binary
  import opened MachO

  /** A load command, as far as the parser tells them apart. */
  datatype Load =
    | SearchPath(path: Bytes)
    | Install(name: Bytes)
    | Dependency(code: nat, name: Bytes)
    | Built(packed: nat)
    | OldestSystem(packed: nat)
    | Other(code: nat)

  /** Sixteen bits and twice eight. */
  function Version(packed: nat): string {
    DecodeVersion(packed)
  }

  predicate KnownCode(code: nat) {
    || code == 0x0000000C || code == 0x0000000D || code == 0x80000018 || code == 0x8000001C || code == 0x8000001F
    || code == 0x00000024 || code == 0x00000032
  }

  predicate CodeIs(c: Load, code: nat) {
    match c
    case SearchPath(_) => code == 0x8000001C
    case Install(_) => code == 0x0000000D
    case Dependency(k, _) => code == k && (k == 0x0000000C || k == 0x80000018 || k == 0x8000001F)
    case Built(_) => code == 0x00000032
    case OldestSystem(_) => code == 0x00000024
    case Other(k) => code == k && !KnownCode(k)
  }

  /** A string of the command at `at`: its offset stands eight bytes in, and a zero ends it inside the command. */
  ghost predicate StringIn(data: Bytes, little: bool, at: nat, size: nat, s: Bytes) {
    && at + 12 <= |data| && at + size <= |data|
    && var off := U32(data, at + 8, little);
    && 0 < off && off + |s| < size
    && data[at + off..at + off + |s|] == s && NoZero(s) && data[at + off + |s|] == 0
  }

  /** The command stands at `at`, `size` bytes long. */
  ghost predicate LoadAt(data: Bytes, little: bool, at: nat, size: nat, c: Load) {
    && size >= 8 && at + size <= |data|
    && CodeIs(c, U32(data, at, little)) && U32(data, at + 4, little) == size
    && match c
       case SearchPath(path) => StringIn(data, little, at, size, path)
       case Install(name) => StringIn(data, little, at, size, name)
       case Dependency(_, name) => StringIn(data, little, at, size, name)
       case Built(packed) => at + 16 <= |data| && U32(data, at + 12, little) == packed
       case OldestSystem(packed) => at + 12 <= |data| && U32(data, at + 8, little) == packed
       case Other(_) => true
  }

  /** The commands stand one behind the other from `at` on. */
  ghost predicate LoadsAt(data: Bytes, little: bool, at: nat, sizes: seq<nat>, cs: seq<Load>)
    decreases |cs|
  {
    |sizes| == |cs| &&
    (cs == [] || (LoadAt(data, little, at, sizes[0], cs[0]) &&
                  LoadsAt(data, little, at + sizes[0], sizes[1..], cs[1..])))
  }

  /** Four magic bytes tell the byte order and the word size; the header is 28 bytes long, or 32. */
  predicate Begins(data: Bytes, little: bool, wide: bool) {
    && |data| >= 20
    && data[..4] == (if little then if wide then [0xCF, 0xFA, 0xED, 0xFE] else [0xCE, 0xFA, 0xED, 0xFE]
                     else if wide then [0xFE, 0xED, 0xFA, 0xCF] else [0xFE, 0xED, 0xFA, 0xCE])
  }

  /** Where the first command stands: behind a header of 28 bytes, or of 32. */
  function FirstAt(wide: bool): nat {
    if wide then 32 else 28
  }

  /** The file's header and its load commands. */
  ghost predicate FileOf(data: Bytes, little: bool, wide: bool, sizes: seq<nat>, cs: seq<Load>) {
    && Begins(data, little, wide) && U32(data, 16, little) == |cs|
    && LoadsAt(data, little, FirstAt(wide), sizes, cs)
  }

  // ----- what the commands say -----------------------------------------------------------------------

  function Paths(cs: seq<Load>): seq<Bytes> {
    if cs == [] then [] else (if cs[0].SearchPath? then [cs[0].path] else []) + Paths(cs[1..])
  }

  function Dependencies(cs: seq<Load>): seq<Bytes> {
    if cs == [] then [] else (if cs[0].Dependency? then [cs[0].name] else []) + Dependencies(cs[1..])
  }

  /** The last install name. */
  function OwnName(cs: seq<Load>): Option<Bytes> {
    if cs == [] then None
    else if cs[|cs| - 1].Install? then Some(cs[|cs| - 1].name)
    else OwnName(cs[..|cs| - 1])
  }

  /** The last version it was built for. */
  function LastBuilt(cs: seq<Load>): Option<nat> {
    if cs == [] then None
    else if cs[|cs| - 1].Built? then Some(cs[|cs| - 1].packed)
    else LastBuilt(cs[..|cs| - 1])
  }

  function FirstOldest(cs: seq<Load>): Option<nat> {
    if cs == [] then None else if cs[0].OldestSystem? then Some(cs[0].packed) else FirstOldest(cs[1..])
  }

  /** The last version it was built for, or where there is none the first oldest system. */
  function System(cs: seq<Load>): Option<string> {
    if LastBuilt(cs).Some? then Some(Version(LastBuilt(cs).value))
    else if FirstOldest(cs).Some? then Some(Version(FirstOldest(cs).value))
    else None
  }

  function Said(cs: seq<Load>): Info {
    Info(Paths(cs), Dependencies(cs), OwnName(cs), System(cs))
  }

  // ----- one command more ----------------------------------------------------------------------------

  function With(info: Info, c: Load): Info {
    match c
    case SearchPath(path) => info.(rpaths := info.rpaths + [path])
    case Install(name) => info.(installName := Some(name))
    case Dependency(_, name) => info.(deps := info.deps + [name])
    case Built(packed) => info.(minOs := Some(Version(packed)))
    case OldestSystem(packed) => if info.minOs == None then info.(minOs := Some(Version(packed))) else info
    case Other(_) => info
  }

  lemma {:induction false} PathsMore(cs: seq<Load>, c: Load)
    ensures Paths(cs + [c]) == Paths(cs) + (if c.SearchPath? then [c.path] else [])
    ensures Dependencies(cs + [c]) == Dependencies(cs) + (if c.Dependency? then [c.name] else [])
    ensures FirstOldest(cs + [c]) ==
              if FirstOldest(cs).Some? then FirstOldest(cs) else if c.OldestSystem? then Some(c.packed) else None
    decreases |cs|
  {
    if cs == [] {
      assert cs + [c] == [c] && [c][1..] == [];
    } else {
      assert (cs + [c])[0] == cs[0] && (cs + [c])[1..] == cs[1..] + [c];
      PathsMore(cs[1..], c);
      Thrice(if cs[0].SearchPath? then [cs[0].path] else [], Paths(cs[1..]), if c.SearchPath? then [c.path] else []);
      Thrice(if cs[0].Dependency? then [cs[0].name] else [], Dependencies(cs[1..]),
        if c.Dependency? then [c.name] else []);
    }
  }

  lemma Thrice(a: seq<Bytes>, b: seq<Bytes>, c: seq<Bytes>)
    ensures a + (b + c) == (a + b) + c
  {
  }

  lemma SaidMore(cs: seq<Load>, c: Load)
    ensures Said(cs + [c]) == With(Said(cs), c)
  {
    var more := cs + [c];
    assert more[|more| - 1] == c && more[..|more| - 1] == cs;
    PathsMore(cs, c);
    assert Paths(cs) + [] == Paths(cs) && Dependencies(cs) + [] == Dependencies(cs);
    hide Paths, Dependencies, FirstOldest, Version;
  }

  // ----- reading ---------------------------------------------------------------------------------------

  lemma StringFound(data: Bytes, little: bool, at: nat, size: nat, s: Bytes)
    requires StringIn(data, little, at, size, s)
    ensures NamedString(data, at, size, little) == Ok(s)
  {
    hide U32;
    var off := U32(data, at + 8, little);
    FindZeroBehind(data, at + off, at + size, s);
  }

  lemma LoadRead(data: Bytes, little: bool, at: nat, size: nat, c: Load, info: Info)
    requires LoadAt(data, little, at, size, c)
    ensures ReadCommand(data, little, at, info) == Ok((With(info, c), at + size))
  {
    hide U32, NamedString, StringIn, DecodeVersion;
    match c
    case SearchPath(path) => StringFound(data, little, at, size, path);
    case Install(name) => StringFound(data, little, at, size, name);
    case Dependency(_, name) => StringFound(data, little, at, size, name);
    case _ =>
  }

  lemma {:induction false} LoadsRead(data: Bytes, little: bool, at: nat, sizes: seq<nat>, done: seq<Load>,
      cs: seq<Load>)
    requires LoadsAt(data, little, at, sizes, cs)
    ensures ReadCommands(data, little, |cs|, at, Said(done)) == Ok(Said(done + cs))
    decreases |cs|
  {
    hide LoadAt, Said, ReadCommand;
    if cs == [] {
      assert done + cs == done;
    } else {
      LoadRead(data, little, at, sizes[0], cs[0], Said(done));
      SaidMore(done, cs[0]);
      LoadsRead(data, little, at + sizes[0], sizes[1..], done + [cs[0]], cs[1..]);
      assert done + [cs[0]] + cs[1..] == done + cs;
    }
  }

  lemma HeaderIs(data: Bytes, little: bool, wide: bool)
    requires Begins(data, little, wide)
    ensures ReadHeader(data) ==
              Ok(Header(little, U32(data, 12, little), U32(data, 16, little), if wide then 32 else 28))
  {
    hide U32;
    FourDiffer();
  }

  /** The magics are told apart by their first byte and their last. */
  lemma FourDiffer()
    ensures FAT[0] == FAT64[0] == 0xCA
    ensures LITTLE64[0] == 0xCF && LITTLE32[0] == 0xCE && BIG64[0] == BIG32[0] == 0xFE
    ensures BIG64[3] == 0xCF && BIG32[3] == 0xCE
  {
  }

  /** Any such file is read as what its commands say: search paths and dependencies in order, the last install name,
      and the last version it was built for, or the first oldest system where there is none. */
  lemma FileRead(data: Bytes, little: bool, wide: bool, sizes: seq<nat>, cs: seq<Load>)
    requires FileOf(data, little, wide, sizes, cs)
    ensures Parse(data) == Ok(Said(cs))
  {
    assert |data| >= 20 && U32(data, 16, little) == |cs|;
    hide U32, LoadsAt, ReadCommands, ReadHeader, Begins, Said, Parse;
    ParseIs(data, little, wide);
    LoadsRead(data, little, FirstAt(wide), sizes, [], cs);
    assert [] + cs == cs;
  }

  lemma NothingSaid()
    ensures Said([]) == Info([], [], None, None)
  {
  }

  // ----- refusals ----------------------------------------------------------------------------------------

  /** What is wrong where a command should stand: no room for its head, or a size no command can have. */
  function Misfit(data: Bytes, little: bool, at: nat): Option<Error> {
    if at + 8 > |data| then Some(PastEnd)
    else if U32(data, at + 4, little) < 8 || at + U32(data, at + 4, little) > |data| then Some(ImplausibleSize)
    else None
  }

  /** A command that does not fit is refused for that, whatever stands before it. */
  lemma CommandRefused(data: Bytes, little: bool, wide: bool, sizes: seq<nat>, cs: seq<Load>)
    requires Begins(data, little, wide) && U32(data, 16, little) > |cs|
    requires LoadsAt(data, little, FirstAt(wide), sizes, cs)
    ensures var misfit := Misfit(data, little, FirstAt(wide) + Sum(sizes));
            misfit.Some? ==> Parse(data) == Err(misfit.value)
  {
    assert |data| >= 20;
    hide *;
    ParseIs(data, little, wide);
    RefusedBehind(data, little, FirstAt(wide), sizes, [], cs, U32(data, 16, little));
  }

  lemma ParseIs(data: Bytes, little: bool, wide: bool)
    requires Begins(data, little, wide)
    ensures Parse(data) == ReadCommands(data, little, U32(data, 16, little), FirstAt(wide), Said([]))
  {
    HeaderIs(data, little, wide);
    NothingSaid();
    hide U32, ReadHeader, ReadCommands, Said;
  }

  function Sum(sizes: seq<nat>): nat {
    if sizes == [] then 0 else sizes[0] + Sum(sizes[1..])
  }

  lemma {:induction false} RefusedBehind(data: Bytes, little: bool, at: nat, sizes: seq<nat>, done: seq<Load>,
      cs: seq<Load>, n: nat)
    requires LoadsAt(data, little, at, sizes, cs) && n > |cs|
    ensures var misfit := Misfit(data, little, at + Sum(sizes));
            misfit.Some? ==> ReadCommands(data, little, n, at, Said(done)) == Err(misfit.value)
    decreases |cs|
  {
    hide LoadAt, Said, U32, AddCommand;
    if cs != [] {
      hide Misfit;
      LoadRead(data, little, at, sizes[0], cs[0], Said(done));
      SaidMore(done, cs[0]);
      hide ReadCommand;
      RefusedBehind(data, little, at + sizes[0], sizes[1..], done + [cs[0]], cs[1..], n - 1);
    }
  }

  /** The two byte orders. */
  lemma ByteOrders()
    ensures U32([0x01, 0x02, 0x03, 0x04], 0, true) == 0x04030201
    ensures U32([0x01, 0x02, 0x03, 0x04], 0, false) == 0x01020304
  {
  }
}
