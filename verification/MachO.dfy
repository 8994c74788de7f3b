/** The Mach-O half of scripts/binfmt.py: the parser of load commands, and the assembler its self-test
    builds files with. Names are byte strings; their UTF-8 decoding is not part of the model. */
module MachO {
  import opened Text
  import opened Binary

  const LC_ID_DYLIB: nat := 0x0D
  const LC_LOAD_DYLIB: nat := 0x0C
  const LC_LOAD_WEAK_DYLIB: nat := 0x80000018
  const LC_REEXPORT_DYLIB: nat := 0x8000001F
  const LC_RPATH: nat := 0x8000001C
  const LC_BUILD_VERSION: nat := 0x32
  const LC_VERSION_MIN_MACOSX: nat := 0x24

  const LITTLE64: Bytes := [0xcf, 0xfa, 0xed, 0xfe]
  const LITTLE32: Bytes := [0xce, 0xfa, 0xed, 0xfe]
  const BIG64: Bytes := [0xfe, 0xed, 0xfa, 0xcf]
  const BIG32: Bytes := [0xfe, 0xed, 0xfa, 0xce]
  const FAT: Bytes := [0xca, 0xfe, 0xba, 0xbe]
  const FAT64: Bytes := [0xca, 0xfe, 0xba, 0xbf]

  /** The source's own refusals, and the two exceptions the library functions it calls can raise. */
  datatype Error =
    | FatArchive
    | NotMachO
    | PastEnd
    | ImplausibleSize
    | StringOutside
    | ShortRead     // struct.error
    | Unterminated  // ValueError from data.index

  datatype Result<+T> = Ok(value: T) | Err(error: Error)

  datatype Info = Info(rpaths: seq<Bytes>, deps: seq<Bytes>, installName: Option<Bytes>, minOs: Option<string>)

  datatype Header = Header(little: bool, filetype: nat, ncmds: nat, first: nat)

  function ReadHeader(data: Bytes): Result<Header> {
    var magic := if |data| < 4 then data else data[..4];
    if magic == FAT || magic == FAT64 then Err(FatArchive)
    else if magic !in [LITTLE64, LITTLE32, BIG64, BIG32] then Err(NotMachO)
    else if |data| < 20 then Err(ShortRead)
    else
      var little := magic == LITTLE64 || magic == LITTLE32;
      var first := if magic == LITTLE64 || magic == BIG64 then 32 else 28;
      Ok(Header(little, U32(data, 12, little), U32(data, 16, little), first))
  }

  /** A 32-bit field, where `unpack_from` does not raise. */
  function Field(data: Bytes, off: nat, little: bool): Result<nat> {
    if off + 4 <= |data| then Ok(U32(data, off, little)) else Err(ShortRead)
  }

  /** A load command's inline string. */
  function CommandString(data: Bytes, at: nat, size: nat, strOff: nat): Result<Bytes>
    requires at + size <= |data|
  {
    if !(0 < strOff < size) then Err(StringOutside)
    else
      match FindZero(data, at + strOff, at + size)
      case None => Err(Unterminated)
      case Some(stop) => Ok(data[at + strOff..stop])
  }

  /** The string whose offset stands eight bytes into the command. */
  function NamedString(data: Bytes, at: nat, size: nat, little: bool): Result<Bytes>
    requires at + size <= |data|
  {
    match Field(data, at + 8, little)
    case Err(e) => Err(e)
    case Ok(strOff) => CommandString(data, at, size, strOff)
  }

  /** 16.8.8 bits, the patch dropped when it is zero. */
  function DecodeVersion(packed: nat): string {
    var major, minor, patch := packed / 0x10000, packed / 0x100 % 0x100, packed % 0x100;
    Decimal(major) + "." + Decimal(minor) + if patch != 0 then "." + Decimal(patch) else ""
  }

  /** One load command, at `at`: what it adds, and where the next one starts. */
  function ReadCommand(data: Bytes, little: bool, at: nat, info: Info): (r: Result<(Info, nat)>)
    ensures r.Ok? ==> at < r.value.1 <= |data|
  {
    if at + 8 > |data| then Err(PastEnd)
    else
      var cmd, size := U32(data, at, little), U32(data, at + 4, little);
      if size < 8 || at + size > |data| then Err(ImplausibleSize)
      else
        match AddCommand(data, little, at, cmd, size, info)
        case Err(e) => Err(e)
        case Ok(info') => Ok((info', at + size))
  }

  function AddCommand(data: Bytes, little: bool, at: nat, cmd: nat, size: nat, info: Info): Result<Info>
    requires at + size <= |data|
  {
    if cmd == LC_RPATH then
      match NamedString(data, at, size, little)
      case Err(e) => Err(e)
      case Ok(path) => Ok(info.(rpaths := info.rpaths + [path]))
    else if cmd == LC_ID_DYLIB then
      match NamedString(data, at, size, little)
      case Err(e) => Err(e)
      case Ok(name) => Ok(info.(installName := Some(name)))
    else if cmd == LC_LOAD_DYLIB || cmd == LC_LOAD_WEAK_DYLIB || cmd == LC_REEXPORT_DYLIB then
      match NamedString(data, at, size, little)
      case Err(e) => Err(e)
      case Ok(name) => Ok(info.(deps := info.deps + [name]))
    else if cmd == LC_BUILD_VERSION then
      match Field(data, at + 12, little)
      case Err(e) => Err(e)
      case Ok(minos) => Ok(info.(minOs := Some(DecodeVersion(minos))))
    else if cmd == LC_VERSION_MIN_MACOSX && info.minOs == None then
      match Field(data, at + 8, little)
      case Err(e) => Err(e)
      case Ok(version) => Ok(info.(minOs := Some(DecodeVersion(version))))
    else Ok(info)
  }

  function ReadCommands(data: Bytes, little: bool, n: nat, at: nat, info: Info): Result<Info>
    decreases n
  {
    if n == 0 then Ok(info)
    else
      match ReadCommand(data, little, at, info)
      case Err(e) => Err(e)
      case Ok((info', next)) => ReadCommands(data, little, n - 1, next, info')
  }

  function Parse(data: Bytes): Result<Info> {
    match ReadHeader(data)
    case Err(e) => Err(e)
    case Ok(h) => ReadCommands(data, h.little, h.ncmds, h.first, Info([], [], None, None))
  }

  method ParseMachO(data: Bytes) returns (r: Result<Info>)
    ensures r == Parse(data)
  {
    hide ReadHeader, ReadCommand;
    var h := ReadHeader(data);
    if h.Err? {
      return Err(h.error);
    }
    var info, at := Info([], [], None, None), h.value.first;
    for i := 0 to h.value.ncmds
      invariant Parse(data) == ReadCommands(data, h.value.little, h.value.ncmds - i, at, info)
    {
      var step := ReadCommand(data, h.value.little, at, info);
      if step.Err? {
        return Err(step.error);
      }
      info, at := step.value.0, step.value.1;
    }
    return Ok(info);
  }

  // ----- the assembler -------------------------------------------------------------------------

  datatype Command =
    | Dylib(cmd: nat, name: Bytes)
    | Rpath(path: Bytes)
    | BuildVersion(major: nat, minor: nat)

  function Zeros(n: nat): (z: Bytes)
    ensures |z| == n && forall i :: 0 <= i < n ==> z[i] == 0
  {
    if n == 0 then [] else [0] + Zeros(n - 1)
  }

  /** A string and its zero, with the zeros that bring the command to a multiple of eight bytes. */
  function Padded(head: nat, name: Bytes): Bytes {
    name + Zeros(1 + -(head + |name| + 1) % 8)
  }

  function SizeOf(c: Command): nat {
    match c
    case Dylib(_, name) => 24 + |Padded(24, name)|
    case Rpath(path) => 12 + |Padded(12, path)|
    case BuildVersion(_, _) => 24
  }

  /** What the assembler's `struct.pack` takes, with names that hold no zero; a dylib command is one of
      the four kinds. */
  predicate Packs(c: Command) {
    && SizeOf(c) < TWO32
    && match c
       case Dylib(cmd, name) =>
         cmd in [LC_ID_DYLIB, LC_LOAD_DYLIB, LC_LOAD_WEAK_DYLIB, LC_REEXPORT_DYLIB] && NoZero(name)
       case Rpath(path) => NoZero(path)
       case BuildVersion(major, minor) => major < 0x10000 && minor < 0x100
  }

  function Encode(c: Command): (b: Bytes)
    requires Packs(c)
    ensures |b| == SizeOf(c) && |b| >= 8
  {
    match c
    case Dylib(cmd, name) =>
      Pack32(cmd, true) + Pack32(SizeOf(c), true) + Pack32(24, true) + (Zeros(12) + Padded(24, name))
    case Rpath(path) => Pack32(LC_RPATH, true) + Pack32(SizeOf(c), true) + Pack32(12, true) + Padded(12, path)
    case BuildVersion(major, minor) =>
      Pack32(LC_BUILD_VERSION, true) + Pack32(24, true) + Pack32(1, true)
      + Pack32(major * 0x10000 + minor * 0x100, true) + Zeros(8)
  }

  predicate AllPack(cs: seq<Command>) {
    forall i :: 0 <= i < |cs| ==> Packs(cs[i])
  }

  function Body(cs: seq<Command>): Bytes
    requires AllPack(cs)
  {
    if cs == [] then [] else Encode(cs[0]) + Body(cs[1..])
  }

  function Assemble(filetype: nat, cs: seq<Command>): Bytes
    requires AllPack(cs) && filetype < TWO32 && |cs| < TWO32 && |Body(cs)| < TWO32
  {
    HeaderBytes(filetype, |cs|, |Body(cs)|) + Body(cs)
  }

  function HeaderBytes(filetype: nat, n: nat, size: nat): (h: Bytes)
    requires filetype < TWO32 && n < TWO32 && size < TWO32
    ensures |h| == 32
  {
    LITTLE64 + Pack32(0x0100000C, true) + Zeros(4)
    + Pack32(filetype, true) + Pack32(n, true) + Pack32(size, true) + Zeros(8)
  }

  // ----- what a list of commands says ------------------------------------------------------------

  function Rpaths(cs: seq<Command>): seq<Bytes> {
    if cs == [] then [] else (if cs[0].Rpath? then [cs[0].path] else []) + Rpaths(cs[1..])
  }

  predicate IsLoad(c: Command) {
    c.Dylib? && c.cmd != LC_ID_DYLIB
  }

  function Deps(cs: seq<Command>): seq<Bytes> {
    if cs == [] then [] else (if IsLoad(cs[0]) then [cs[0].name] else []) + Deps(cs[1..])
  }

  predicate IsId(c: Command) {
    c.Dylib? && c.cmd == LC_ID_DYLIB
  }

  /** The last id command's name, if there is one. */
  function InstallName(cs: seq<Command>): Option<Bytes> {
    if cs == [] then None
    else if InstallName(cs[1..]).Some? then InstallName(cs[1..])
    else if IsId(cs[0]) then Some(cs[0].name)
    else None
  }

  /** The last build version, as a string. */
  function MinOs(cs: seq<Command>): Option<string> {
    if cs == [] then None
    else if MinOs(cs[1..]).Some? then MinOs(cs[1..])
    else if cs[0].BuildVersion? then Some(Decimal(cs[0].major) + "." + Decimal(cs[0].minor))
    else None
  }

  function Or<T>(a: Option<T>, b: Option<T>): Option<T> {
    if a.Some? then a else b
  }

  /** `info` with what `cs` says added. */
  function Add(info: Info, cs: seq<Command>): Info {
    Info(info.rpaths + Rpaths(cs), info.deps + Deps(cs),
         Or(InstallName(cs), info.installName), Or(MinOs(cs), info.minOs))
  }

  // ----- parsing undoes assembling -----------------------------------------------------------------

  lemma FourBytes(b: Bytes, at: nat, n: nat)
    requires n < TWO32 && at + 4 <= |b| && b[at..at + 4] == Pack32(n, true)
    ensures U32(b, at, true) == n
  {
    Unpack32(n, true);
    U32Inside(b, Pack32(n, true), at, 0, true);
  }

  /** A name stands at `head`, with a zero behind it. */
  predicate NameAt(b: Bytes, head: nat, name: Bytes) {
    head + |name| < |b| && b[head..head + |name|] == name && b[head + |name|] == 0
  }

  /** A command's code, where its string begins, and the string. */
  function CodeOf(c: Command): nat {
    match c
    case Dylib(cmd, _) => cmd
    case Rpath(_) => LC_RPATH
    case BuildVersion(_, _) => LC_BUILD_VERSION
  }

  function HeadOf(c: Command): nat {
    if c.Dylib? then 24 else 12
  }

  function NameOf(c: Command): Bytes {
    match c
    case Dylib(_, name) => name
    case Rpath(path) => path
    case BuildVersion(_, _) => []
  }

  /** The words a string command starts with, its string and the zero behind it. */
  predicate SpelledOut(c: Command, b: Bytes) {
    && |b| >= 12
    && U32(b, 0, true) == CodeOf(c) && U32(b, 4, true) == |b| && U32(b, 8, true) == HeadOf(c)
    && NameAt(b, HeadOf(c), NameOf(c))
  }

  lemma StringCommand(c: Command)
    requires Packs(c) && !c.BuildVersion?
    ensures SpelledOut(c, Encode(c)) && |Encode(c)| == SizeOf(c)
  {
    var rest := if c.Dylib? then Zeros(12) + Padded(24, NameOf(c)) else Padded(12, NameOf(c));
    ThreeWords(CodeOf(c), SizeOf(c), HeadOf(c), rest);
    PaddedStarts(HeadOf(c), NameOf(c));
    BehindHead(Encode(c), Padded(HeadOf(c), NameOf(c)), HeadOf(c), NameOf(c));
    hide U32, NameAt;
  }

  lemma ThreeWords(x: nat, y: nat, z: nat, rest: Bytes)
    requires x < TWO32 && y < TWO32 && z < TWO32
    ensures var b := Pack32(x, true) + Pack32(y, true) + Pack32(z, true) + rest;
            && U32(b, 0, true) == x && U32(b, 4, true) == y && U32(b, 8, true) == z
            && b[12..] == rest && (|rest| >= 12 ==> b[24..] == rest[12..])
  {
    var b := Pack32(x, true) + Pack32(y, true) + Pack32(z, true) + rest;
    assert b[0..4] == Pack32(x, true) && b[4..8] == Pack32(y, true) && b[8..12] == Pack32(z, true);
    hide Pack32, U32;
    FourBytes(b, 0, x);
    FourBytes(b, 4, y);
    FourBytes(b, 8, z);
  }

  lemma PaddedStarts(head: nat, name: Bytes)
    ensures var p := Padded(head, name);
            |p| > |name| && p[..|name|] == name && p[|name|] == 0
  {
  }

  lemma BehindHead(b: Bytes, p: Bytes, head: nat, name: Bytes)
    requires head <= |b| && b[head..] == p && |p| > |name| && p[..|name|] == name && p[|name|] == 0
    ensures NameAt(b, head, name)
  {
    assert b[head..][..|name|] == b[head..head + |name|] && b[head..][|name|] == b[head + |name|];
  }

  lemma VersionCommand(c: Command)
    requires Packs(c) && c.BuildVersion?
    ensures var b := Encode(c);
            && U32(b, 0, true) == LC_BUILD_VERSION && U32(b, 4, true) == |b|
            && U32(b, 12, true) == c.major * 0x10000 + c.minor * 0x100
  {
    var b, packed := Encode(c), c.major * 0x10000 + c.minor * 0x100;
    assert b[0..4] == Pack32(LC_BUILD_VERSION, true);
    assert b[4..8] == Pack32(24, true);
    assert b[12..16] == Pack32(packed, true);
    hide Pack32;
    FourBytes(b, 0, LC_BUILD_VERSION);
    FourBytes(b, 4, 24);
    FourBytes(b, 12, packed);
  }

  /** Any packed version is decoded to its three numbers, the patch dropped when it is zero. */
  lemma VersionDecoded(major: nat, minor: nat, patch: nat)
    requires minor < 0x100 && patch < 0x100
    ensures DecodeVersion(major * 0x10000 + minor * 0x100 + patch) ==
              Decimal(major) + "." + Decimal(minor) + if patch != 0 then "." + Decimal(patch) else ""
  {
    PackedParts(major, minor, patch);
    hide Decimal;
  }

  lemma PackedParts(major: nat, minor: nat, patch: nat)
    requires minor < 0x100 && patch < 0x100
    ensures var packed := major * 0x10000 + minor * 0x100 + patch;
            packed / 0x10000 == major && packed / 0x100 % 0x100 == minor && packed % 0x100 == patch
  {
    var high := major * 0x100 + minor;
    assert major * 0x10000 + minor * 0x100 + patch == high * 0x100 + patch;
    assert (high * 0x100 + patch) / 0x100 == high;
  }

  lemma StringRead(data: Bytes, at: nat, b: Bytes, head: nat, name: Bytes)
    requires StandsAt(data, at, b)
    requires 12 <= head <= |b| && U32(b, 8, true) == head && NoZero(name) && NameAt(b, head, name)
    ensures NamedString(data, at, |b|, true) == Ok(name)
  {
    hide U32;
    U32Inside(data, b, at, 8, true);
    InsideSlice(data, b, at, head, name);
    FindZeroBehind(data, at + head, at + |b|, name);
  }

  lemma InsideSlice(data: Bytes, b: Bytes, at: nat, head: nat, name: Bytes)
    requires StandsAt(data, at, b)
    requires head + |name| < |b| && b[head..head + |name|] == name
    ensures data[at + head..at + head + |name|] == name
    ensures data[at + head + |name|] == b[head + |name|]
  {
    SliceOfSlice(data, at, at + |b|, head, head + |name|);
    assert data[at..at + |b|][head + |name|] == data[at + head + |name|];
  }

  /** One assembled command, wherever it stands, is read as what it is. */
  lemma CommandRead(data: Bytes, at: nat, c: Command, info: Info)
    requires Packs(c)
    requires StandsAt(data, at, Encode(c))
    ensures ReadCommand(data, true, at, info) == Ok((Add(info, [c]), at + SizeOf(c)))
  {
    if c.BuildVersion? {
      VersionRead(data, at, c, info);
    } else {
      NameRead(data, at, c, info);
    }
  }

  lemma VersionRead(data: Bytes, at: nat, c: Command, info: Info)
    requires Packs(c) && c.BuildVersion?
    requires StandsAt(data, at, Encode(c))
    ensures ReadCommand(data, true, at, info) == Ok((Add(info, [c]), at + SizeOf(c)))
  {
    hide *;
    VersionFound(data, at, c);
    PackedVersion(c);
    VersionStep(data, at, c.major * 0x10000 + c.minor * 0x100, info);
    AddVersion(info, c);
  }

  /** A build version of this value stands at `at`. */
  predicate VersionAt(data: Bytes, at: nat, packed: nat) {
    && at + 24 <= |data|
    && U32(data, at, true) == LC_BUILD_VERSION && U32(data, at + 4, true) == 24 && U32(data, at + 12, true) == packed
  }

  lemma VersionFound(data: Bytes, at: nat, c: Command)
    requires Packs(c) && c.BuildVersion? && StandsAt(data, at, Encode(c))
    ensures VersionAt(data, at, c.major * 0x10000 + c.minor * 0x100)
  {
    VersionCommand(c);
    PackedVersion(c);
    hide Encode, U32, StandsAt, DecodeVersion, Decimal;
    FirstWords(data, Encode(c), at);
    U32Inside(data, Encode(c), at, 12, true);
  }

  lemma PackedVersion(c: Command)
    requires Packs(c) && c.BuildVersion?
    ensures |Encode(c)| == 24 == SizeOf(c)
    ensures DecodeVersion(c.major * 0x10000 + c.minor * 0x100) == Decimal(c.major) + "." + Decimal(c.minor)
  {
    VersionDecoded(c.major, c.minor, 0);
    hide Decimal, DecodeVersion;
    NothingAdded(Decimal(c.major) + "." + Decimal(c.minor));
  }

  lemma NothingAdded(s: string)
    ensures s + "" == s
  {
  }

  lemma VersionStep(data: Bytes, at: nat, packed: nat, info: Info)
    requires VersionAt(data, at, packed)
    ensures ReadCommand(data, true, at, info) == Ok((info.(minOs := Some(DecodeVersion(packed))), at + 24))
  {
    hide U32, DecodeVersion, NamedString;
  }

  lemma NameRead(data: Bytes, at: nat, c: Command, info: Info)
    requires Packs(c) && !c.BuildVersion?
    requires StandsAt(data, at, Encode(c))
    ensures ReadCommand(data, true, at, info) == Ok((Add(info, [c]), at + SizeOf(c)))
  {
    hide *;
    NameFound(data, at, c);
    NameStep(data, at, SizeOf(c), CodeOf(c), NameOf(c), info);
    AddNamed(info, c);
  }

  lemma NameFound(data: Bytes, at: nat, c: Command)
    requires Packs(c) && !c.BuildVersion? && StandsAt(data, at, Encode(c))
    ensures NamedAt(data, at, SizeOf(c), CodeOf(c), NameOf(c))
  {
    hide *;
    StringCommand(c);
    NameHasNoZero(c);
    FoundWhereSpelled(data, at, c, Encode(c));
  }

  lemma NameHasNoZero(c: Command)
    requires Packs(c) && !c.BuildVersion?
    ensures NoZero(NameOf(c)) &&
            CodeOf(c) in [LC_RPATH, LC_ID_DYLIB, LC_LOAD_DYLIB, LC_LOAD_WEAK_DYLIB, LC_REEXPORT_DYLIB]
  {
    hide NoZero, SizeOf;
  }

  /** A command of this code and size stands at `at` and names this string. */
  predicate NamedAt(data: Bytes, at: nat, size: nat, cmd: nat, name: Bytes) {
    && at + size <= |data| && size >= 12
    && U32(data, at, true) == cmd && U32(data, at + 4, true) == size
    && cmd in [LC_RPATH, LC_ID_DYLIB, LC_LOAD_DYLIB, LC_LOAD_WEAK_DYLIB, LC_REEXPORT_DYLIB]
    && NamedString(data, at, size, true) == Ok(name)
  }

  lemma FirstWords(data: Bytes, b: Bytes, at: nat)
    requires StandsAt(data, at, b) && |b| >= 8
    ensures at + |b| <= |data| && U32(data, at, true) == U32(b, 0, true) && U32(data, at + 4, true) == U32(b, 4, true)
  {
    U32Inside(data, b, at, 0, true);
    U32Inside(data, b, at, 4, true);
    hide U32;
  }

  lemma AddVersion(info: Info, c: Command)
    requires c.BuildVersion?
    ensures Add(info, [c]) == info.(minOs := Some(Decimal(c.major) + "." + Decimal(c.minor)))
  {
    AddOne(info, c);
    hide Add, Decimal;
  }

  lemma FoundWhereSpelled(data: Bytes, at: nat, c: Command, b: Bytes)
    requires SpelledOut(c, b) && StandsAt(data, at, b) && NoZero(NameOf(c))
    requires CodeOf(c) in [LC_RPATH, LC_ID_DYLIB, LC_LOAD_DYLIB, LC_LOAD_WEAK_DYLIB, LC_REEXPORT_DYLIB]
    ensures NamedAt(data, at, |b|, CodeOf(c), NameOf(c))
  {
    FirstWords(data, b, at);
    hide U32, StandsAt, NameAt, NoZero, NamedString, CodeOf, NameOf;
    StringRead(data, at, b, HeadOf(c), NameOf(c));
  }

  /** What a name command does to what has been read. */
  function WithName(info: Info, cmd: nat, name: Bytes): Info {
    if cmd == LC_RPATH then info.(rpaths := info.rpaths + [name])
    else if cmd == LC_ID_DYLIB then info.(installName := Some(name))
    else info.(deps := info.deps + [name])
  }

  lemma NameStep(data: Bytes, at: nat, size: nat, cmd: nat, name: Bytes, info: Info)
    requires NamedAt(data, at, size, cmd, name)
    ensures ReadCommand(data, true, at, info) == Ok((WithName(info, cmd, name), at + size))
  {
    hide U32, NamedString;
  }

  lemma AddNamed(info: Info, c: Command)
    requires Packs(c) && !c.BuildVersion?
    ensures Add(info, [c]) == WithName(info, CodeOf(c), NameOf(c))
  {
    AddOne(info, c);
    hide Add, SizeOf, NoZero;
  }

  lemma AddOne(info: Info, c: Command)
    ensures Add(info, [c]) ==
              match c
              case Rpath(path) => info.(rpaths := info.rpaths + [path])
              case BuildVersion(major, minor) => info.(minOs := Some(Decimal(major) + "." + Decimal(minor)))
              case Dylib(cmd, name) =>
                if cmd == LC_ID_DYLIB then info.(installName := Some(name)) else info.(deps := info.deps + [name])
  {
    assert [c][1..] == [];
    assert Rpaths([c]) == if c.Rpath? then [c.path] else [];
    assert Deps([c]) == if IsLoad(c) then [c.name] else [];
    assert InstallName([c]) == if IsId(c) then Some(c.name) else None;
    assert MinOs([c]) == if c.BuildVersion? then Some(Decimal(c.major) + "." + Decimal(c.minor)) else None;
    assert info.rpaths + [] == info.rpaths && info.deps + [] == info.deps;
    hide Rpaths, Deps, InstallName, MinOs, Decimal;
  }

  lemma AddMore(info: Info, cs: seq<Command>)
    requires cs != []
    ensures Add(Add(info, [cs[0]]), cs[1..]) == Add(info, cs)
  {
    AddOne(info, cs[0]);
    var r := if cs[0].Rpath? then [cs[0].path] else [];
    var d := if IsLoad(cs[0]) then [cs[0].name] else [];
    assert info.rpaths + r + Rpaths(cs[1..]) == info.rpaths + (r + Rpaths(cs[1..]));
    assert info.deps + d + Deps(cs[1..]) == info.deps + (d + Deps(cs[1..]));
    assert info.rpaths + [] == info.rpaths && info.deps + [] == info.deps;
  }

  lemma {:induction false} CommandsRead(data: Bytes, at: nat, cs: seq<Command>, info: Info)
    requires AllPack(cs) && StandsAt(data, at, Body(cs))
    ensures ReadCommands(data, true, |cs|, at, info) == Ok(Add(info, cs))
    decreases |cs|
  {
    hide *;
    if cs == [] {
      NoCommands(data, at, info);
    } else {
      var c := cs[0];
      FirstCommand(data, at, cs);
      CommandRead(data, at, c, info);
      NextCommand(data, |cs| - 1, at, info, Add(info, [c]), at + SizeOf(c));
      CommandsRead(data, at + SizeOf(c), cs[1..], Add(info, [c]));
      AddMore(info, cs);
    }
  }

  lemma NoCommands(data: Bytes, at: nat, info: Info)
    ensures ReadCommands(data, true, 0, at, info) == Ok(Add(info, []))
  {
    assert info.rpaths + [] == info.rpaths && info.deps + [] == info.deps;
  }

  lemma FirstCommand(data: Bytes, at: nat, cs: seq<Command>)
    requires AllPack(cs) && cs != [] && StandsAt(data, at, Body(cs))
    ensures Packs(cs[0]) && AllPack(cs[1..])
    ensures StandsAt(data, at, Encode(cs[0])) && StandsAt(data, at + SizeOf(cs[0]), Body(cs[1..]))
  {
    hide Encode, StandsAt, Packs;
    var first, rest := Encode(cs[0]), Body(cs[1..]);
    assert Body(cs) == first + rest;
    hide *;
    StandsFirst(data, at, first, rest);
  }

  lemma NextCommand(data: Bytes, n: nat, at: nat, info: Info, info': Info, next: nat)
    requires ReadCommand(data, true, at, info) == Ok((info', next))
    ensures ReadCommands(data, true, n + 1, at, info) == ReadCommands(data, true, n, next, info')
  {
    hide ReadCommand;
  }

  lemma HeaderRead(filetype: nat, n: nat, size: nat, body: Bytes)
    requires filetype < TWO32 && n < TWO32 && size < TWO32
    ensures ReadHeader(HeaderBytes(filetype, n, size) + body) == Ok(Header(true, filetype, n, 32))
  {
    var h := HeaderBytes(filetype, n, size);
    var data := h + body;
    assert data[..4] == LITTLE64;
    assert data[12..16] == Pack32(filetype, true);
    assert data[16..20] == Pack32(n, true);
    hide Pack32, HeaderBytes;
    FourBytes(data, 12, filetype);
    FourBytes(data, 16, n);
  }

  /** For every list of commands the assembler takes, the parser gives back what they say: the search
      paths and dependencies in order, the install name if and only if there is an id command, and the
      version that was packed. */
  lemma ParseUndoesAssemble(filetype: nat, cs: seq<Command>)
    requires AllPack(cs) && filetype < TWO32 && |cs| < TWO32 && |Body(cs)| < TWO32
    ensures Parse(Assemble(filetype, cs)) == Ok(Info(Rpaths(cs), Deps(cs), InstallName(cs), MinOs(cs)))
    ensures InstallName(cs).Some? <==> exists i :: 0 <= i < |cs| && IsId(cs[i])
  {
    HeaderRead(filetype, |cs|, |Body(cs)|, Body(cs));
    BodyStands(filetype, cs);
    CommandsRead(Assemble(filetype, cs), 32, cs, Info([], [], None, None));
    AddToNothing(cs);
    NamedIff(cs);
    hide ReadCommands, HeaderBytes, Body, Add, InstallName, Rpaths, Deps, MinOs, StandsAt;
  }

  lemma BodyStands(filetype: nat, cs: seq<Command>)
    requires AllPack(cs) && filetype < TWO32 && |cs| < TWO32 && |Body(cs)| < TWO32
    ensures StandsAt(Assemble(filetype, cs), 32, Body(cs))
  {
    hide Body, HeaderBytes;
  }

  lemma AddToNothing(cs: seq<Command>)
    ensures Add(Info([], [], None, None), cs) == Info(Rpaths(cs), Deps(cs), InstallName(cs), MinOs(cs))
  {
    hide Rpaths, Deps, InstallName, MinOs;
    assert [] + Rpaths(cs) == Rpaths(cs) && [] + Deps(cs) == Deps(cs);
  }

  lemma {:induction false} NamedIff(cs: seq<Command>)
    ensures InstallName(cs).Some? <==> exists i :: 0 <= i < |cs| && IsId(cs[i])
    decreases |cs|
  {
    if cs != [] {
      NamedIff(cs[1..]);
      assert forall i :: 0 < i < |cs| ==> cs[i] == cs[1..][i - 1];
      if i :| 0 <= i < |cs[1..]| && IsId(cs[1..][i]) {
        assert IsId(cs[i + 1]);
      }
    }
  }

  // ----- which files are refused for their magic -------------------------------------------------

  function Magic(data: Bytes): Bytes {
    if |data| < 4 then data else data[..4]
  }

  predicate ByMagic(e: Error) {
    e.FatArchive? || e.NotMachO?
  }

  lemma CommandNotByMagic(data: Bytes, little: bool, at: nat, info: Info)
    ensures ReadCommand(data, little, at, info).Err? ==> !ByMagic(ReadCommand(data, little, at, info).error)
  {
    hide U32, FindZero, DecodeVersion;
  }

  lemma {:induction false} CommandsNotByMagic(data: Bytes, little: bool, n: nat, at: nat, info: Info)
    ensures ReadCommands(data, little, n, at, info).Err? ==> !ByMagic(ReadCommands(data, little, n, at, info).error)
    decreases n
  {
    hide ReadCommand;
    if n > 0 {
      CommandNotByMagic(data, little, at, info);
      var step := ReadCommand(data, little, at, info);
      if step.Ok? {
        CommandsNotByMagic(data, little, n - 1, step.value.1, step.value.0);
      }
    }
  }

  /** The two refusals a caller can tell by the first four bytes mean just that: whatever its load commands,
      a file is called fat if and only if it has a fat magic, and no Mach-O if and only if it has none. */
  lemma RefusedByMagic(data: Bytes)
    ensures Parse(data) == Err(FatArchive) <==> Magic(data) in [FAT, FAT64]
    ensures Parse(data) == Err(NotMachO) <==> Magic(data) !in [FAT, FAT64, LITTLE64, LITTLE32, BIG64, BIG32]
  {
    var h := ReadHeader(data);
    if h.Ok? {
      CommandsNotByMagic(data, h.value.little, h.value.ncmds, h.value.first, Info([], [], None, None));
    }
    hide ReadCommands, U32;
  }
}
