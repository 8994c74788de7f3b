/** The bundle of scripts/bundle_artifact.py in terms of what files need: libraries, and where each is to be looked
    for. The names a file records are these needs spelt out. */
module BundleNeeds {
  import opened Text
  import opened BundleArtifact

  /** Where a library is looked for: under the file's own name for its directory, along the search path, in a
      directory of the platform's, in some other directory, or wherever the loader finds the bare name. */
  datatype Place = Loader | Executable | Origin | SearchPath | Platform(which: nat) | Directory(name: string) | Nowhere

  /** `sub` is a path below the place, each part closed by a slash. */
  datatype Need = Need(place: Place, sub: string, base: string)

  datatype Contents = MachOFile(needs: seq<Need>) | ElfFile(needs: seq<Need>) | NotReadable

  /** The toolchain's libraries, what each file needs, the artifact's format, where libraries are copied to, and
      the files to start from. */
  datatype Setting = Setting(toolchain: set<string>, contents: Path -> Contents, macho: bool, libdir: string,
                             roots: seq<Path>)

  const PLATFORM := ["/usr/lib/", "/System/Library/", "/lib/", "/lib64/", "/usr/lib64/"]

  predicate ClosedBySlash(s: string) {
    s == "" || s[|s| - 1] == '/'
  }

  /** A file's own name: no slash in it, and none of the marks a loader gives a meaning to. */
  predicate PlainName(base: string) {
    '/' !in base && (base != "" ==> base[0] != '@' && base[0] != '$')
  }

  predicate InPlatform(name: string) {
    exists k :: 0 <= k < |PLATFORM| && PLATFORM[k] <= name
  }

  predicate GoodNeed(n: Need) {
    && PlainName(n.base) && ClosedBySlash(n.sub)
    && (match n.place
        case Platform(k) => k < |PLATFORM|
        case Directory(name) => name != "" && name[0] == '/' && name[|name| - 1] == '/' && !InPlatform(name + n.sub)
        case Nowhere => n.sub == ""
        case _ => true)
  }

  function Front(p: Place): string {
    match p
    case Loader => "@loader_path/"
    case Executable => "@executable_path/"
    case Origin => "$ORIGIN/"
    case SearchPath => "@rpath/"
    case Platform(k) => if k < |PLATFORM| then PLATFORM[k] else ""
    case Directory(name) => name
    case Nowhere => ""
  }

  function Spelt(n: Need): string {
    Front(n.place) + n.sub + n.base
  }

  function SpeltAll(needs: seq<Need>): seq<string> {
    seq(|needs|, i requires 0 <= i < |needs| => Spelt(needs[i]))
  }

  function Recorded(c: Contents): Inspected {
    match c
    case MachOFile(needs) => MachO(SpeltAll(needs))
    case ElfFile(needs) => Elf(SpeltAll(needs))
    case NotReadable => Unreadable
  }

  /** The same setting as the script meets it: in names. */
  function WorldOf(s: Setting): World {
    World(s.toolchain, f => Recorded(s.contents(f)), s.macho, s.libdir, s.roots)
  }

  ghost predicate GoodSetting(s: Setting) {
    forall f, n :: !s.contents(f).NotReadable? && n in s.contents(f).needs ==> GoodNeed(n)
  }

  // ----- what the setting asks for -------------------------------------------------------------------

  /** Beside the file, or wherever the loader was started: a name the file itself resolves. */
  predicate OwnPlace(p: Place) {
    p.Loader? || p.Executable? || p.Origin?
  }

  /** File `f` needs `n`, and the platform is not known to supply it: a Mach-O file says so by its directory. */
  predicate Needs(s: Setting, f: Path, n: Need) {
    && !s.contents(f).NotReadable? && n in s.contents(f).needs
    && (s.contents(f).MachOFile? ==> !n.place.Platform?)
  }

  predicate IsRoot(s: Setting, base: string) {
    exists i :: 0 <= i < |s.roots| && s.roots[i].base == base
  }

  /** `f` needs toolchain library `b`, and no root is that file. */
  ghost predicate Brings(s: Setting, f: Path, b: string) {
    b in s.toolchain && !IsRoot(s, b) && exists n :: Needs(s, f, n) && n.base == b
  }

  /** A chain of libraries: a root brings the first, and each brings the one behind it. */
  ghost predicate Chain(s: Setting, names: seq<string>) {
    && names != []
    && (exists f :: f in s.roots && Brings(s, f, names[0]))
    && forall i :: 0 < i < |names| ==> Brings(s, Path(s.libdir, names[i - 1]), names[i])
  }

  ghost predicate LeadsTo(s: Setting, names: seq<string>, b: string) {
    Chain(s, names) && names[|names| - 1] == b
  }

  ghost predicate Belongs(s: Setting, b: string) {
    exists names :: LeadsTo(s, names, b)
  }

  ghost predicate InBundle(s: Setting, f: Path) {
    f in s.roots || exists b :: Belongs(s, b) && f == Path(s.libdir, b)
  }

  /** A need the bundle or the platform meets; a Mach-O artifact finds nothing of its own places elsewhere. */
  predicate Met(s: Setting, n: Need) {
    n.base in s.toolchain || IsRoot(s, n.base) || !(s.macho && (OwnPlace(n.place) || n.place.SearchPath?))
  }

  ghost predicate AllMet(s: Setting, f: Path) {
    !s.contents(f).NotReadable? && forall n :: Needs(s, f, n) ==> Met(s, n)
  }

  /** Every file of the bundle can be read, and every need of theirs is met. */
  ghost predicate Complete(s: Setting) {
    forall f :: InBundle(s, f) ==> AllMet(s, f)
  }

  ghost predicate NeedsOut(s: Setting, f: Path) {
    exists n :: Needs(s, f, n) && !OwnPlace(n.place)
  }

  /** Some root needs a thing it does not resolve by its own place. */
  ghost predicate RootNeeds(s: Setting) {
    exists f :: f in s.roots && NeedsOut(s, f)
  }

  /** The bundle is made exactly where it is complete, and then holds exactly what some chain of needs leads to,
      each library once; a Mach-O bundle of nothing, whose roots need something, is refused. */
  method BundleSpelt(s: Setting) returns (r: Outcome)
    requires GoodSetting(s)
    ensures r.Bundled? <==> Complete(s) && !(s.macho && RootNeeds(s) && forall b :: !Belongs(s, b))
    ensures r.NothingCopied? <==> Complete(s) && s.macho && RootNeeds(s) && forall b :: !Belongs(s, b)
    ensures r.Bundled? ==> (forall b :: b in r.copied <==> Belongs(s, b)) && Distinct(r.copied)
  {
    r := BundleExactly(WorldOf(s));
    hide *;
    forall b
      ensures Wanted(WorldOf(s), b) <==> Belongs(s, b)
    {
      WantedBelongs(s, b);
    }
    ShippableComplete(s);
    RootsNeed(s);
    SuspiciousIs(WorldOf(s));
    MachoOf(s);
  }

  lemma SuspiciousIs(w: World)
    ensures Suspicious(w) <==> w.macho && RootsReachOut(w) && forall b :: !Wanted(w, b)
  {
  }

  lemma MachoOf(s: Setting)
    ensures WorldOf(s).macho == s.macho && WorldOf(s).roots == s.roots
  {
  }

  // ----- names read back -----------------------------------------------------------------------------

  lemma AfterMore(s: string)
    requires '/' in s
    ensures s[0] == '/' ==> After(s, '/') == s[1..]
    ensures s[0] != '/' ==> '/' in s[1..] && After(s, '/') == After(s[1..], '/')
  {
    if s[0] == '/' {
      assert Before(s, '/') == "";
    }
  }

  /** A name's last part does not depend on what it begins with, as long as a slash follows. */
  lemma BaseMore(s: string)
    requires '/' in s
    ensures BaseName(s) == BaseName(s[1..])
  {
    AfterMore(s);
  }

  /** The last part of a path is what stands behind its last slash. */
  lemma {:induction false} BaseOf(front: string, base: string)
    requires ClosedBySlash(front) && '/' !in base
    ensures BaseName(front + base) == base
    decreases |front|
  {
    if front == "" {
      assert front + base == base;
    } else {
      var s := front + base;
      assert s[|front| - 1] == '/' && s[|front| - 1] in s;
      assert s[1..] == front[1..] + base;
      BaseMore(s);
      BaseOf(front[1..], base);
    }
  }

  lemma Starts(front: string, more: string, prefix: string)
    ensures prefix <= front ==> prefix <= front + more
    ensures |prefix| <= |front| && prefix <= front + more ==> prefix <= front
    ensures |front| <= |prefix| && prefix <= front + more ==> front <= prefix
  {
    if prefix <= front + more && |prefix| <= |front| {
      assert prefix == (front + more)[..|prefix|] == front[..|prefix|];
    }
    if prefix <= front + more && |front| <= |prefix| {
      assert front == (front + more)[..|front|] == prefix[..|front|];
    }
  }

  lemma BeginsWith(c: char, s: string)
    requires s != "" && s[0] == c
    ensures c != '@' && c != '$' ==> !SelfRelative(s) && !StartsWith(s, "@rpath/")
    ensures c != '/' ==> !System(s)
  {
  }

  lemma OwnFronts(s: string)
    ensures "@loader_path/" <= s || "@executable_path/" <= s || "$ORIGIN/" <= s ==>
              SelfRelative(s) && !StartsWith(s, "@rpath/")
    ensures "@rpath/" <= s ==> StartsWith(s, "@rpath/") && !SelfRelative(s)
  {
    assert "@loader_path/" <= s ==> "@loader_path" <= "@loader_path/" && s[1] == 'l';
    assert "@executable_path/" <= s ==> "@executable_path" <= "@executable_path/" && s[1] == 'e';
    assert "$ORIGIN/" <= s ==> "$ORIGIN" <= "$ORIGIN/" && s[0] == '$';
    assert "@rpath/" <= s ==> s[1] == 'r';
  }

  lemma PlatformFronts(s: string)
    ensures System(s) <==> exists k :: 0 <= k < |PLATFORM| && PLATFORM[k] <= s
  {
    assert PLATFORM[0] == "/usr/lib/" && PLATFORM[1] == "/System/Library/" && PLATFORM[2] == "/lib/";
    assert PLATFORM[3] == "/lib64/" && PLATFORM[4] == "/usr/lib64/";
  }

  /** A name's last part decides nothing about where it is looked for. */
  lemma FrontDecides(front: string, base: string, k: nat)
    requires k < |PLATFORM| && '/' !in base
    ensures PLATFORM[k] <= front + base <==> PLATFORM[k] <= front
  {
    var p := PLATFORM[k];
    assert p[|p| - 1] == '/';
    Starts(front, base, p);
    assert forall i :: 0 <= i < |base| ==> base[i] in base && (front + base)[|front| + i] == base[i];
    assert p <= front + base ==> |p| <= |front + base| && (front + base)[|p| - 1] == '/';
  }

  lemma MarkedIs(n: Need)
    requires GoodNeed(n) && (OwnPlace(n.place) || n.place.SearchPath?)
    ensures SelfRelative(Spelt(n)) <==> OwnPlace(n.place)
    ensures StartsWith(Spelt(n), "@rpath/") <==> n.place.SearchPath?
    ensures !System(Spelt(n))
  {
    hide SelfRelative, System;
    var s, front := Spelt(n), Front(n.place);
    Assoc(front, n.sub, n.base);
    assert front <= s && s[0] == front[0];
    OwnFronts(s);
    BeginsWith(s[0], s);
  }

  lemma UnmarkedIs(n: Need)
    requires GoodNeed(n) && !OwnPlace(n.place) && !n.place.SearchPath?
    ensures !SelfRelative(Spelt(n)) && !StartsWith(Spelt(n), "@rpath/")
    ensures System(Spelt(n)) <==> n.place.Platform?
  {
    hide SelfRelative, StartsWith, System;
    var s, front := Spelt(n), Front(n.place) + n.sub;
    PlatformFronts(s);
    forall k | 0 <= k < |PLATFORM|
      ensures PLATFORM[k] <= s <==> PLATFORM[k] <= front
    {
      FrontDecides(front, n.base, k);
    }
    FrontIs(n);
    Unmarked(s, front, n.base);
  }

  lemma Unmarked(s: string, front: string, base: string)
    requires s == front + base && PlainName(base) && (front != "" ==> front[0] == '/')
    ensures !SelfRelative(s) && !StartsWith(s, "@rpath/")
  {
    hide SelfRelative, StartsWith;
    if s == "" {
      Empty(s);
    } else {
      assert s[0] == if front != "" then '/' else base[0];
      BeginsWith(s[0], s);
    }
  }

  lemma FrontIs(n: Need)
    requires GoodNeed(n) && !OwnPlace(n.place) && !n.place.SearchPath?
    ensures var front := Front(n.place) + n.sub;
            && (front != "" ==> front[0] == '/')
            && (n.place.Platform? <==> exists k :: 0 <= k < |PLATFORM| && PLATFORM[k] <= front)
  {
    var front := Front(n.place) + n.sub;
    match n.place
    case Platform(k) =>
      assert PLATFORM[k] <= front && PLATFORM[k][0] == '/';
    case Directory(name) =>
      assert front[0] == name[0];
    case _ => {}
  }

  lemma Empty(s: string)
    requires s == ""
    ensures !SelfRelative(s) && !StartsWith(s, "@rpath/")
  {
  }

  /** A spelt need is the library and the place it was. */
  lemma SpeltIs(n: Need)
    requires GoodNeed(n)
    ensures BaseName(Spelt(n)) == n.base
    ensures SelfRelative(Spelt(n)) <==> OwnPlace(n.place)
    ensures StartsWith(Spelt(n), "@rpath/") <==> n.place.SearchPath?
    ensures System(Spelt(n)) <==> n.place.Platform?
  {
    hide SelfRelative, StartsWith, System, BaseName;
    var front := Front(n.place);
    if n.place.Platform? {
      assert front[|front| - 1] == '/';
    }
    BaseOf(front + n.sub, n.base);
    if OwnPlace(n.place) || n.place.SearchPath? {
      MarkedIs(n);
    } else {
      UnmarkedIs(n);
    }
  }

  // ----- files and their needs -------------------------------------------------------------------------

  lemma {:induction false} KeptAre(deps: seq<string>, dep: string)
    ensures dep in WithoutSystem(deps) <==> dep in deps && !System(dep)
  {
    hide System;
    if deps != [] {
      KeptAre(deps[1..], dep);
      assert deps == [deps[0]] + deps[1..];
    }
  }

  lemma SpeltIn(needs: seq<Need>, dep: string)
    ensures dep in SpeltAll(needs) <==> exists n :: n in needs && Spelt(n) == dep
  {
    hide Spelt;
    var spelt := SpeltAll(needs);
    if dep in spelt {
      var i :| 0 <= i < |spelt| && spelt[i] == dep;
      assert needs[i] in needs;
    }
    if n :| n in needs && Spelt(n) == dep {
      var i :| 0 <= i < |needs| && needs[i] == n;
      assert spelt[i] == dep;
    }
  }

  ghost predicate IsNeed(s: Setting, f: Path, dep: string) {
    exists n :: Needs(s, f, n) && Spelt(n) == dep
  }

  /** What the script reads off a file are its needs, spelt. */
  lemma DepsAre(s: Setting, f: Path)
    requires GoodSetting(s)
    ensures DepsOf(WorldOf(s), f).None? <==> s.contents(f).NotReadable?
    ensures DepsOf(WorldOf(s), f).Some? ==>
              forall dep :: dep in DepsOf(WorldOf(s), f).value <==> IsNeed(s, f, dep)
  {
    hide Spelt, SpeltAll, System, WithoutSystem, GoodNeed;
    if !s.contents(f).NotReadable? {
      var needs := s.contents(f).needs;
      forall dep
        ensures dep in DepsOf(WorldOf(s), f).value <==> IsNeed(s, f, dep)
      {
        SpeltIn(needs, dep);
        KeptAre(SpeltAll(needs), dep);
        forall n | n in needs
          ensures System(Spelt(n)) <==> n.place.Platform?
        {
          SpeltIs(n);
        }
      }
    }
  }

  lemma NeedIs(s: Setting, f: Path, n: Need)
    requires GoodSetting(s) && Needs(s, f, n)
    ensures BaseName(Spelt(n)) == n.base && (SelfRelative(Spelt(n)) <==> OwnPlace(n.place))
    ensures MustTravel(WorldOf(s), Spelt(n)) <==> s.macho && (OwnPlace(n.place) || n.place.SearchPath?)
  {
    SpeltIs(n);
  }

  lemma RootNamesAre(s: Setting, b: string)
    ensures b in RootNames(WorldOf(s)) <==> IsRoot(s, b)
  {
  }

  lemma BringsPulls(s: Setting, f: Path, b: string)
    requires GoodSetting(s)
    ensures Pulls(WorldOf(s), f, b) <==> Brings(s, f, b)
  {
    hide Spelt, BaseName, DepsOf, RootNames, Needs, GoodNeed, GoodSetting, IsRoot;
    DepsAre(s, f);
    RootNamesAre(s, b);
    OnlyReadable(s, f);
    forall n | Needs(s, f, n)
      ensures BaseName(Spelt(n)) == n.base
    {
      NeedIs(s, f, n);
    }
    if Brings(s, f, b) {
      var n :| Needs(s, f, n) && n.base == b;
      assert Spelt(n) in DepsOf(WorldOf(s), f).value;
    }
  }

  lemma OnlyReadable(s: Setting, f: Path)
    ensures forall n :: Needs(s, f, n) ==> !s.contents(f).NotReadable?
  {
  }

  // ----- chains ----------------------------------------------------------------------------------------

  lemma {:induction false} ReachedByChain(s: Setting, b: string, steps: nat) returns (names: seq<string>)
    requires GoodSetting(s) && Reached(WorldOf(s), b, steps)
    ensures Chain(s, names) && names[|names| - 1] == b
    decreases steps
  {
    hide Pulls, Brings, GoodSetting;
    var w := WorldOf(s);
    if f :| f in w.roots && Pulls(w, f, b) {
      BringsPulls(s, f, b);
      names := [b];
    } else {
      var via :| Reached(w, via, steps - 1) && Pulls(w, InLib(w, via), b);
      var front := ReachedByChain(s, via, steps - 1);
      BringsPulls(s, InLib(w, via), b);
      names := front + [b];
      ChainMore(s, front, b);
    }
  }

  lemma ChainMore(s: Setting, names: seq<string>, b: string)
    requires Chain(s, names) && Brings(s, Path(s.libdir, names[|names| - 1]), b)
    ensures Chain(s, names + [b])
  {
    hide Brings;
    var more := names + [b];
    forall i | 0 < i < |more|
      ensures Brings(s, Path(s.libdir, more[i - 1]), more[i])
    {
      if i < |names| {
        assert more[i - 1] == names[i - 1] && more[i] == names[i];
      }
    }
    assert more[0] == names[0];
  }

  lemma {:induction false} ChainReaches(s: Setting, names: seq<string>)
    requires GoodSetting(s) && Chain(s, names)
    ensures Reached(WorldOf(s), names[|names| - 1], |names|)
    decreases |names|
  {
    hide Pulls, Brings, GoodSetting;
    var w, last := WorldOf(s), |names| - 1;
    if last == 0 {
      var f :| f in s.roots && Brings(s, f, names[0]);
      BringsPulls(s, f, names[0]);
    } else {
      var front := names[..last];
      FrontChain(s, names);
      ChainReaches(s, front);
      assert Brings(s, Path(s.libdir, names[last - 1]), names[last]);
      BringsPulls(s, Path(s.libdir, names[last - 1]), names[last]);
      assert front[|front| - 1] == names[last - 1] && |front| == last;
      assert Reached(w, names[last - 1], last) && InLib(w, names[last - 1]) == Path(s.libdir, names[last - 1]);
    }
  }

  lemma FrontChain(s: Setting, names: seq<string>)
    requires Chain(s, names) && |names| > 1
    ensures Chain(s, names[..|names| - 1])
  {
    hide Brings;
    var front := names[..|names| - 1];
    forall i | 0 < i < |front|
      ensures Brings(s, Path(s.libdir, front[i - 1]), front[i])
    {
      assert front[i - 1] == names[i - 1] && front[i] == names[i];
    }
    assert front[0] == names[0];
  }

  lemma WantedBelongs(s: Setting, b: string)
    requires GoodSetting(s)
    ensures Wanted(WorldOf(s), b) <==> Belongs(s, b)
  {
    hide Reached, GoodSetting;
    if Wanted(WorldOf(s), b) {
      var n: nat :| Reached(WorldOf(s), b, n);
      var names := ReachedByChain(s, b, n);
      assert LeadsTo(s, names, b);
    }
    if Belongs(s, b) {
      var names :| LeadsTo(s, names, b);
      ChainReaches(s, names);
    }
  }

  // ----- the whole bundle ------------------------------------------------------------------------------

  lemma TravelsIs(s: Setting, f: Path)
    requires GoodSetting(s)
    ensures Travels(WorldOf(s), f) <==> InBundle(s, f)
  {
    hide Wanted, Belongs, GoodSetting;
    forall b
      ensures Wanted(WorldOf(s), b) <==> Belongs(s, b)
    {
      WantedBelongs(s, b);
    }
  }

  ghost predicate AllSupplied(w: World, f: Path) {
    DepsOf(w, f).Some? && forall dep | dep in DepsOf(w, f).value :: Supplied(w, dep)
  }

  ghost predicate LooksOut(w: World, f: Path) {
    DepsOf(w, f).Some? && ReachesOut(DepsOf(w, f).value)
  }

  /** The needs of one file: all supplied, as the script asks, or all met. */
  lemma SuppliedMet(s: Setting, f: Path)
    requires GoodSetting(s)
    ensures AllSupplied(WorldOf(s), f) <==> AllMet(s, f)
  {
    hide Spelt, BaseName, DepsOf, Needs, GoodSetting, SelfRelative, StartsWith, MustTravel, RootNames, IsRoot;
    var w := WorldOf(s);
    DepsAre(s, f);
    OnlyReadable(s, f);
    forall n | Needs(s, f, n)
      ensures Supplied(w, Spelt(n)) <==> Met(s, n)
    {
      NeedIs(s, f, n);
      RootNamesAre(s, n.base);
    }
    hide Supplied, Met, WorldOf;
    if DepsOf(w, f).Some? && forall dep | dep in DepsOf(w, f).value :: Supplied(w, dep) {
      forall n | Needs(s, f, n)
        ensures Met(s, n)
      {
        assert Spelt(n) in DepsOf(w, f).value;
      }
    }
  }

  lemma ShippableComplete(s: Setting)
    requires GoodSetting(s)
    ensures Shippable(WorldOf(s)) <==> Complete(s)
  {
    hide Travels, InBundle, Needs, Met, Supplied, DepsOf, GoodSetting;
    forall f
      ensures Travels(WorldOf(s), f) <==> InBundle(s, f)
    {
      TravelsIs(s, f);
    }
    forall f
      ensures AllSupplied(WorldOf(s), f) <==> AllMet(s, f)
    {
      SuppliedMet(s, f);
    }
    ShippableIs(WorldOf(s));
    hide WorldOf, AllSupplied, AllMet;
  }

  lemma ShippableIs(w: World)
    ensures Shippable(w) <==> forall f :: Travels(w, f) ==> AllSupplied(w, f)
  {
    hide Travels, Supplied, DepsOf;
  }

  lemma RootsNeed(s: Setting)
    requires GoodSetting(s)
    ensures RootsReachOut(WorldOf(s)) <==> RootNeeds(s)
  {
    hide Spelt, DepsOf, NeedsOut, GoodSetting, ReachesOut;
    var w := WorldOf(s);
    forall f
      ensures LooksOut(w, f) <==> NeedsOut(s, f)
    {
      ReachesOutIs(s, f);
    }
    assert RootsReachOut(w) <==> exists f :: f in w.roots && LooksOut(w, f);
  }

  lemma ReachesOutIs(s: Setting, f: Path)
    requires GoodSetting(s)
    ensures LooksOut(WorldOf(s), f) <==> NeedsOut(s, f)
  {
    hide Spelt, DepsOf, Needs, GoodSetting, SelfRelative, OwnPlace;
    var w := WorldOf(s);
    DepsAre(s, f);
    OnlyReadable(s, f);
    forall n | Needs(s, f, n)
      ensures SelfRelative(Spelt(n)) <==> OwnPlace(n.place)
    {
      NeedIs(s, f, n);
    }
    if n :| Needs(s, f, n) && !OwnPlace(n.place) {
      var deps := DepsOf(w, f).value;
      assert Spelt(n) in deps;
      var i :| 0 <= i < |deps| && deps[i] == Spelt(n);
    }
    if DepsOf(w, f).Some? && ReachesOut(DepsOf(w, f).value) {
      var deps := DepsOf(w, f).value;
      var i :| 0 <= i < |deps| && !SelfRelative(deps[i]);
      assert deps[i] in deps;
    }
  }
}
