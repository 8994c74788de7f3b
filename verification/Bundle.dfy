/** The dependency closure of scripts/bundle_artifact.py: which runtime libraries travel with an
    artifact. The file system is what is on disk once a library has been copied; rewriting search paths
    and signing are not part of the model. */
module BundleArtifact {
  import opened Text

  datatype Path = Path(dir: string, base: string)

  /** What inspecting a file gives: the names it depends on, or nothing that can be read. */
  datatype Inspected = MachO(deps: seq<string>) | Elf(deps: seq<string>) | Unreadable

  /** The toolchain's library names, what is in each file, the artifact's format, where libraries go, and
      the files the closure starts from: the staged artifact, then the extra ones. */
  datatype World = World(modlib: set<string>, files: Path -> Inspected, macho: bool, libdir: string, roots: seq<Path>)

  predicate StartsWith(s: string, prefix: string) {
    prefix <= s
  }

  predicate SelfRelative(dep: string) {
    StartsWith(dep, "@loader_path") || StartsWith(dep, "@executable_path") || StartsWith(dep, "$ORIGIN")
  }

  predicate System(dep: string) {
    || StartsWith(dep, "/usr/lib/") || StartsWith(dep, "/System/Library/") || StartsWith(dep, "/lib/")
    || StartsWith(dep, "/lib64/") || StartsWith(dep, "/usr/lib64/")
  }

  function WithoutSystem(deps: seq<string>): seq<string> {
    if deps == [] then []
    else if System(deps[0]) then WithoutSystem(deps[1..])
    else [deps[0]] + WithoutSystem(deps[1..])
  }

  /** `deps_of`: a Mach-O file's dependencies but for the system's, an ELF file's all. */
  function DepsOf(w: World, f: Path): Option<seq<string>> {
    match w.files(f)
    case MachO(deps) => Some(WithoutSystem(deps))
    case Elf(deps) => Some(deps)
    case Unreadable => None
  }

  /** `os.path.basename`. */
  function BaseName(s: string): string {
    if '/' !in s then s else BaseName(After(s, '/'))
  }

  /** A dependency the artifact cannot load without: looked for beside it or along its search path. */
  predicate MustTravel(w: World, dep: string) {
    w.macho && (SelfRelative(dep) || StartsWith(dep, "@rpath/"))
  }

  function RootNames(w: World): set<string> {
    set i | 0 <= i < |w.roots| :: w.roots[i].base
  }

  function InLib(w: World, base: string): Path {
    Path(w.libdir, base)
  }

  // ----- reaching ------------------------------------------------------------------------------

  /** File `f` brings library `b` along. */
  ghost predicate Pulls(w: World, f: Path, b: string) {
    && b in w.modlib && b !in RootNames(w)
    && DepsOf(w, f).Some? && exists dep :: dep in DepsOf(w, f).value && BaseName(dep) == b
  }

  /** Library `b` is brought along in `steps` steps from a root. */
  ghost predicate Reached(w: World, b: string, steps: nat)
    decreases steps
  {
    steps > 0 &&
    ((exists f :: f in w.roots && Pulls(w, f, b)) ||
     exists via :: Reached(w, via, steps - 1) && Pulls(w, InLib(w, via), b))
  }

  ghost predicate Wanted(w: World, b: string) {
    exists n: nat :: Reached(w, b, n)
  }

  /** A file of the bundle: a root, or a library some chain of dependencies from a root names. */
  ghost predicate Travels(w: World, f: Path) {
    f in w.roots || exists b :: Wanted(w, b) && f == InLib(w, b)
  }

  lemma PullsOn(w: World, f: Path, b: string)
    requires Travels(w, f) && Pulls(w, f, b)
    ensures Wanted(w, b)
  {
    if f in w.roots {
      assert Reached(w, b, 1);
    } else {
      var via :| Wanted(w, via) && f == InLib(w, via);
      var n: nat :| Reached(w, via, n);
      assert Reached(w, b, n + 1);
    }
  }

  /** Any set of names that holds what the roots pull and what its own libraries pull holds everything
      reached: so the closure is the least one. */
  lemma {:induction false} Least(w: World, s: set<string>, b: string, n: nat)
    requires forall f, c | f in w.roots && Pulls(w, f, c) :: c in s
    requires forall via, c | via in s && Pulls(w, InLib(w, via), c) :: c in s
    requires Reached(w, b, n)
    ensures b in s
    decreases n
  {
    if !exists f :: f in w.roots && Pulls(w, f, b) {
      var via :| Reached(w, via, n - 1) && Pulls(w, InLib(w, via), b);
      Least(w, s, via, n - 1);
    }
  }

  // ----- the worklist --------------------------------------------------------------------------

  datatype Outcome =
    | Bundled(copied: seq<string>)
    | CannotInspect(f: Path)
    | Missing(f: Path, base: string)
    | NothingCopied(foreign: nat)

  /** A dependency that needs nothing more: its file is in the bundle, or the platform supplies it. */
  predicate Settled(w: World, seen: set<string>, dep: string) {
    BaseName(dep) in seen || (BaseName(dep) !in w.modlib && !MustTravel(w, dep))
  }

  predicate AllSettled(w: World, seen: set<string>, deps: seq<string>) {
    forall i :: 0 <= i < |deps| ==> Settled(w, seen, deps[i])
  }

  predicate FileSettled(w: World, seen: set<string>, f: Path) {
    DepsOf(w, f).Some? && AllSettled(w, seen, DepsOf(w, f).value)
  }

  predicate Distinct(s: seq<string>) {
    forall i, j :: 0 <= i < j < |s| ==> s[i] != s[j]
  }

  function AsSet(s: seq<string>): set<string> {
    set i | 0 <= i < |s| :: s[i]
  }

  /** What has been copied: distinct toolchain libraries, none a root's name, each reached. */
  ghost predicate Copying(w: World, seen: set<string>, copied: seq<string>) {
    && seen == RootNames(w) + AsSet(copied)
    && Distinct(copied)
    && forall b | b in copied :: b in w.modlib && b !in RootNames(w) && Wanted(w, b)
  }

  /** Every file of the bundle so far is settled or in the queue; the queue holds nothing else. */
  ghost predicate Covered(w: World, seen: set<string>, copied: seq<string>, queue: seq<Path>) {
    && (forall f | f in queue :: Travels(w, f))
    && (forall f | f in w.roots :: f in queue || FileSettled(w, seen, f))
    && (forall b | b in copied :: InLib(w, b) in queue || FileSettled(w, seen, InLib(w, b)))
  }

  /** A finished bundle: closed, and nothing in it that is not reached. */
  ghost predicate Closed(w: World, copied: seq<string>) {
    && Copying(w, RootNames(w) + AsSet(copied), copied)
    && (forall f | f in w.roots :: FileSettled(w, RootNames(w) + AsSet(copied), f))
    && (forall b | b in copied :: FileSettled(w, RootNames(w) + AsSet(copied), InLib(w, b)))
  }

  /** How many of a root's dependencies are not looked for beside it. */
  function Foreign(deps: seq<string>): nat {
    if deps == [] then 0 else (if SelfRelative(deps[|deps| - 1]) then 0 else 1) + Foreign(deps[..|deps| - 1])
  }

  /** What going through one file's dependencies leaves. */
  datatype Visit = Visit(seen: set<string>, copied: seq<string>, queue: seq<Path>, missing: Option<string>)

  function AddDep(w: World, v: Visit, dep: string): Visit {
    var base := BaseName(dep);
    if base in v.seen then v
    else if base !in w.modlib then if MustTravel(w, dep) then v.(missing := Some(base)) else v
    else Visit(v.seen + {base}, v.copied + [base], v.queue + [InLib(w, base)], v.missing)
  }

  /** The loop's invariant inside a file: those before `i` are settled. */
  ghost predicate Visiting(w: World, f: Path, deps: seq<string>, i: nat, v: Visit)
    requires i <= |deps|
  {
    && DepsOf(w, f) == Some(deps) && Travels(w, f) && v.missing == None
    && Copying(w, v.seen, v.copied)
    && AllSettled(w, v.seen, deps[..i])
    && (forall g | g in v.queue :: Travels(w, g))
    && (forall g | g in w.roots :: g == f || g in v.queue || FileSettled(w, v.seen, g))
    && (forall b | b in v.copied :: InLib(w, b) == f || InLib(w, b) in v.queue || FileSettled(w, v.seen, InLib(w, b)))
  }

  lemma SettledMore(w: World, seen: set<string>, more: set<string>, deps: seq<string>)
    requires AllSettled(w, seen, deps) && seen <= more
    ensures AllSettled(w, more, deps)
  {
    forall i | 0 <= i < |deps|
      ensures Settled(w, more, deps[i])
    {
      assert Settled(w, seen, deps[i]);
    }
  }

  lemma SettledOneMore(w: World, seen: set<string>, deps: seq<string>, i: nat)
    requires i < |deps| && AllSettled(w, seen, deps[..i]) && Settled(w, seen, deps[i])
    ensures AllSettled(w, seen, deps[..i + 1])
  {
    var most := deps[..i + 1];
    forall j | 0 <= j < |most|
      ensures Settled(w, seen, most[j])
    {
      assert j < i ==> Settled(w, seen, deps[..i][j]);
    }
  }

  lemma CopyOne(w: World, f: Path, dep: string, seen: set<string>, copied: seq<string>)
    requires Copying(w, seen, copied) && Travels(w, f)
    requires DepsOf(w, f).Some? && dep in DepsOf(w, f).value
    requires BaseName(dep) !in seen && BaseName(dep) in w.modlib
    ensures Copying(w, seen + {BaseName(dep)}, copied + [BaseName(dep)]) && Wanted(w, BaseName(dep))
  {
    var base := BaseName(dep);
    assert Pulls(w, f, base);
    PullsOn(w, f, base);
    AsSetAppend(copied, base);
    forall i, j | 0 <= i < j < |copied + [base]|
      ensures (copied + [base])[i] != (copied + [base])[j]
    {
      assert copied[i] in AsSet(copied);
    }
  }

  lemma AsSetAppend(s: seq<string>, x: string)
    ensures AsSet(s + [x]) == AsSet(s) + {x}
  {
    forall y
      ensures y in AsSet(s + [x]) <==> y in AsSet(s) + {x}
    {
      if y in AsSet(s) {
        var i :| 0 <= i < |s| && s[i] == y;
        assert (s + [x])[i] == y;
      }
      assert (s + [x])[|s|] == x;
    }
  }

  lemma VisitStep(w: World, f: Path, deps: seq<string>, i: nat, v: Visit)
    requires i < |deps| && Visiting(w, f, deps, i, v)
    ensures var v' := AddDep(w, v, deps[i]);
            v'.missing.None? ==> Visiting(w, f, deps, i + 1, v')
  {
    var v' := AddDep(w, v, deps[i]);
    if v'.missing.None? {
      if v'.seen != v.seen {
        CopyOne(w, f, deps[i], v.seen, v.copied);
      }
      SettledMore(w, v.seen, v'.seen, deps[..i]);
      SettledOneMore(w, v'.seen, deps, i);
      FilesStillSettled(w, v.seen, v'.seen);
    }
  }

  lemma FilesStillSettled(w: World, seen: set<string>, more: set<string>)
    requires seen <= more
    ensures forall g | FileSettled(w, seen, g) :: FileSettled(w, more, g)
  {
    forall g | FileSettled(w, seen, g)
      ensures FileSettled(w, more, g)
    {
      SettledMore(w, seen, more, DepsOf(w, g).value);
    }
  }

  /** What is left to copy, and what the queue may hold: what ends the loop on a cycle. */
  lemma AddDepShrinks(w: World, v: Visit, dep: string)
    ensures var v' := AddDep(w, v, dep);
            && v.seen <= v'.seen
            && (v'.seen == v.seen ==> v'.queue == v.queue)
            && (v'.seen != v.seen ==> |w.modlib - v'.seen| < |w.modlib - v.seen|)
  {
    var v' := AddDep(w, v, dep);
    if v'.seen != v.seen {
      assert w.modlib - v'.seen == w.modlib - v.seen - {BaseName(dep)};
    }
  }

  /** A dependency that stops the bundle. */
  ghost predicate Lacking(w: World, deps: seq<string>, base: string) {
    && base !in w.modlib && base !in RootNames(w)
    && (exists dep :: dep in deps && BaseName(dep) == base && MustTravel(w, dep))
  }

  /** Fewer libraries are left to copy, or just as many and the queue has not grown. */
  ghost predicate Shrunk(w: World, seen: set<string>, queue: seq<Path>, v: Visit) {
    |w.modlib - v.seen| < |w.modlib - seen| || (v.seen == seen && v.queue == queue)
  }

  ghost predicate Counted(w: World, f: Path, deps: seq<string>, i: nat, foreign: nat)
    requires i <= |deps|
  {
    foreign == if f in w.roots then Foreign(deps[..i]) else 0
  }

  lemma CountOne(w: World, f: Path, deps: seq<string>, i: nat, foreign: nat)
    requires i < |deps| && Counted(w, f, deps, i, foreign)
    ensures Counted(w, f, deps, i + 1, foreign + if f in w.roots && !SelfRelative(deps[i]) then 1 else 0)
  {
    hide SelfRelative;
    assert deps[..i + 1][..i] == deps[..i];
  }

  lemma ShrunkOn(w: World, seen: set<string>, queue: seq<Path>, v: Visit, dep: string)
    requires Shrunk(w, seen, queue, v) && Prefix(queue, v.queue)
    ensures Shrunk(w, seen, queue, AddDep(w, v, dep)) && Prefix(queue, AddDep(w, v, dep).queue)
  {
    AddDepShrinks(w, v, dep);
  }

  lemma RootsAreSeen(w: World, f: Path, deps: seq<string>, i: nat, v: Visit)
    requires i <= |deps| && Visiting(w, f, deps, i, v)
    ensures RootNames(w) <= v.seen
  {
  }

  lemma MissingLacks(w: World, v: Visit, deps: seq<string>, i: nat)
    requires i < |deps| && v.missing.None? && RootNames(w) <= v.seen
    ensures var v' := AddDep(w, v, deps[i]); v'.missing.Some? ==> Lacking(w, deps, v'.missing.value)
  {
  }

  /** One file off the queue: its dependencies, one after another. */
  method VisitFile(w: World, f: Path, deps: seq<string>, seen: set<string>, copied: seq<string>, queue: seq<Path>)
    returns (v: Visit, foreign: nat)
    requires Visiting(w, f, deps, 0, Visit(seen, copied, queue, None))
    ensures v.missing.Some? ==> Lacking(w, deps, v.missing.value)
    ensures v.missing.None? ==>
              Prefix(queue, v.queue) && Visiting(w, f, deps, |deps|, v) && Counted(w, f, deps, |deps|, foreign)
    ensures Shrunk(w, seen, queue, v)
  {
    hide *;
    v, foreign := Visit(seen, copied, queue, None), 0;
    VisitStarts(w, f, deps, v);
    for i := 0 to |deps|
      invariant v.missing.None?
      invariant Visiting(w, f, deps, i, v) && Counted(w, f, deps, i, foreign)
      invariant Shrunk(w, seen, queue, v) && Prefix(queue, v.queue)
    {
      var dep := deps[i];
      CountOne(w, f, deps, i, foreign);
      if f in w.roots && !SelfRelative(dep) {
        foreign := foreign + 1;
      }
      VisitStep(w, f, deps, i, v);
      RootsAreSeen(w, f, deps, i, v);
      MissingLacks(w, v, deps, i);
      ShrunkOn(w, seen, queue, v, dep);
      v := AddDep(w, v, dep);
      if v.missing.Some? {
        return;
      }
    }
  }

  lemma VisitStarts(w: World, f: Path, deps: seq<string>, v: Visit)
    ensures Counted(w, f, deps, 0, 0) && Shrunk(w, v.seen, v.queue, v) && Prefix(v.queue, v.queue)
  {
  }

  lemma Begin(w: World)
    ensures Copying(w, RootNames(w), []) && Covered(w, RootNames(w), [], w.roots) && Tallied(w, w.roots, 0)
  {
    assert AsSet([]) == {};
  }

  lemma TakeFirst(w: World, seen: set<string>, copied: seq<string>, queue: seq<Path>)
    requires queue != [] && Copying(w, seen, copied) && Covered(w, seen, copied, queue)
    ensures Travels(w, queue[0])
    ensures DepsOf(w, queue[0]).Some? ==>
              Visiting(w, queue[0], DepsOf(w, queue[0]).value, 0, Visit(seen, copied, queue[1..], None))
  {
    assert forall f :: f in queue <==> f == queue[0] || f in queue[1..];
  }

  lemma Visited(w: World, f: Path, deps: seq<string>, v: Visit)
    requires Visiting(w, f, deps, |deps|, v)
    ensures Copying(w, v.seen, v.copied) && Covered(w, v.seen, v.copied, v.queue)
    ensures FileSettled(w, v.seen, f)
  {
    assert deps[..|deps|] == deps;
  }

  /** Some root names a dependency that is not looked for beside it. */
  ghost predicate RootsReachOut(w: World) {
    exists f :: f in w.roots && DepsOf(w, f).Some? && ReachesOut(DepsOf(w, f).value)
  }

  predicate ReachesOut(deps: seq<string>) {
    exists i :: 0 <= i < |deps| && !SelfRelative(deps[i])
  }

  lemma {:induction false} ForeignReachesOut(deps: seq<string>)
    ensures Foreign(deps) > 0 <==> ReachesOut(deps)
  {
    hide SelfRelative;
    if deps != [] {
      var n := |deps| - 1;
      ForeignReachesOut(deps[..n]);
      assert ReachesOut(deps[..n]) ==> ReachesOut(deps);
    }
  }

  predicate StaysIn(w: World, f: Path) {
    DepsOf(w, f).Some? && !ReachesOut(DepsOf(w, f).value)
  }

  /** What the running count says of the roots gone through so far. */
  ghost predicate Tallied(w: World, queue: seq<Path>, foreign: nat) {
    && (foreign > 0 ==> RootsReachOut(w))
    && (foreign == 0 ==> forall f | f in w.roots :: f in queue || StaysIn(w, f))
  }

  lemma TallyFile(w: World, queue: seq<Path>, foreign: nat, f: Path, deps: seq<string>, more: nat, queue': seq<Path>)
    requires Tallied(w, queue, foreign) && queue != [] && f == queue[0] && DepsOf(w, f) == Some(deps)
    requires Counted(w, f, deps, |deps|, more) && Prefix(queue[1..], queue')
    ensures Tallied(w, queue', foreign + more)
  {
    hide DepsOf, ReachesOut;
    assert deps[..|deps|] == deps;
    ForeignReachesOut(deps);
    forall g | g in queue && g != f
      ensures g in queue'
    {
      var i :| 0 <= i < |queue| && queue[i] == g;
      assert queue'[i - 1] == g;
    }
  }

  predicate Prefix(s: seq<Path>, t: seq<Path>) {
    |s| <= |t| && forall i :: 0 <= i < |s| ==> t[i] == s[i]
  }

  /** The closure, and what the source makes of it. */
  method Bundle(w: World) returns (r: Outcome)
    ensures r.Bundled? ==> Closed(w, r.copied) && (w.macho && r.copied == [] ==> !RootsReachOut(w))
    ensures r.CannotInspect? ==> Travels(w, r.f) && DepsOf(w, r.f) == None
    ensures r.Missing? ==> Travels(w, r.f) && DepsOf(w, r.f).Some? && Lacking(w, DepsOf(w, r.f).value, r.base)
    ensures r.NothingCopied? ==> w.macho && Closed(w, []) && RootsReachOut(w)
  {
    hide *;
    var seen, copied, queue, foreign := RootNames(w), [], w.roots, 0;
    Begin(w);
    while queue != []
      invariant Copying(w, seen, copied) && Covered(w, seen, copied, queue)
      invariant Tallied(w, queue, foreign)
      decreases |w.modlib - seen|, |queue|
    {
      var f := queue[0];
      TakeFirst(w, seen, copied, queue);
      var deps := DepsOf(w, f);
      if deps.None? {
        return CannotInspect(f);
      }
      var v, more := VisitFile(w, f, deps.value, seen, copied, queue[1..]);
      if v.missing.Some? {
        return Missing(f, v.missing.value);
      }
      ShrinksMeasure(w, seen, queue[1..], v);
      Visited(w, f, deps.value, v);
      TallyFile(w, queue, foreign, f, deps.value, more, v.queue);
      foreign := foreign + more;
      seen, copied, queue := v.seen, v.copied, v.queue;
    }
    TallyDone(w, foreign);
    CoveredIsClosed(w, seen, copied);
    if w.macho && foreign > 0 && copied == [] {
      return NothingCopied(foreign);
    }
    return Bundled(copied);
  }

  lemma ShrinksMeasure(w: World, seen: set<string>, rest: seq<Path>, v: Visit)
    requires Shrunk(w, seen, rest, v)
    ensures |w.modlib - v.seen| < |w.modlib - seen| || (|w.modlib - v.seen| == |w.modlib - seen| && v.queue == rest)
  {
  }

  lemma CoveredIsClosed(w: World, seen: set<string>, copied: seq<string>)
    requires Copying(w, seen, copied) && Covered(w, seen, copied, [])
    ensures Closed(w, copied)
  {
  }

  lemma TallyDone(w: World, foreign: nat)
    requires Tallied(w, [], foreign)
    ensures foreign > 0 <==> RootsReachOut(w)
  {
  }

  // ----- what a closed bundle is -----------------------------------------------------------------

  lemma {:induction false} ReachedIsCopied(w: World, copied: seq<string>, b: string, n: nat)
    requires Closed(w, copied) && Reached(w, b, n)
    ensures b in copied
    decreases n
  {
    var seen := RootNames(w) + AsSet(copied);
    if f :| f in w.roots && Pulls(w, f, b) {
      PulledIsSeen(w, seen, f, b);
    } else {
      var via :| Reached(w, via, n - 1) && Pulls(w, InLib(w, via), b);
      ReachedIsCopied(w, copied, via, n - 1);
      PulledIsSeen(w, seen, InLib(w, via), b);
    }
  }

  lemma PulledIsSeen(w: World, seen: set<string>, f: Path, b: string)
    requires FileSettled(w, seen, f) && Pulls(w, f, b)
    ensures b in seen
  {
    var deps := DepsOf(w, f).value;
    var dep :| dep in deps && BaseName(dep) == b;
    var i :| 0 <= i < |deps| && deps[i] == dep;
    assert Settled(w, seen, deps[i]);
  }

  /** The bundle is the least closure, on any dependency graph, cycles included: exactly the libraries some
      chain of dependencies from a root names, each copied once; and whatever a bundled file depends on is
      bundled, or absent from the toolchain and, for Mach-O, not looked for beside the file. */
  lemma ClosedIsLeast(w: World, copied: seq<string>)
    requires Closed(w, copied)
    ensures forall b :: b in copied <==> Wanted(w, b)
    ensures Distinct(copied)
    ensures forall f, dep | Travels(w, f) && DepsOf(w, f).Some? && dep in DepsOf(w, f).value ::
      BaseName(dep) in RootNames(w) || BaseName(dep) in copied || (BaseName(dep) !in w.modlib && !MustTravel(w, dep))
    ensures forall f | Travels(w, f) :: DepsOf(w, f).Some?
  {
    forall b | Wanted(w, b)
      ensures b in copied
    {
      var n: nat :| Reached(w, b, n);
      ReachedIsCopied(w, copied, b, n);
    }
    var seen := RootNames(w) + AsSet(copied);
    forall f | Travels(w, f)
      ensures FileSettled(w, seen, f)
    {
      if f !in w.roots {
        var b :| Wanted(w, b) && f == InLib(w, b);
        assert b in copied;
      }
    }
    forall f, dep | Travels(w, f) && DepsOf(w, f).Some? && dep in DepsOf(w, f).value
      ensures
        || BaseName(dep) in RootNames(w) || BaseName(dep) in copied
        || (BaseName(dep) !in w.modlib && !MustTravel(w, dep))
    {
      var deps := DepsOf(w, f).value;
      assert FileSettled(w, seen, f);
      var i :| 0 <= i < |deps| && deps[i] == dep;
      assert Settled(w, seen, deps[i]);
    }
  }

  predicate Supplied(w: World, dep: string) {
    BaseName(dep) in w.modlib || BaseName(dep) in RootNames(w) || !MustTravel(w, dep)
  }

  /** Which outcome there is, from the graph alone: a bundle (or the refusal to ship one with nothing in
      it) exactly when every file that would travel can be inspected and lacks nothing it must have. */
  ghost predicate Shippable(w: World) {
    forall f | Travels(w, f) ::
      DepsOf(w, f).Some? && forall dep | dep in DepsOf(w, f).value :: Supplied(w, dep)
  }

  /** The one refusal that is not about a missing or unreadable file. */
  ghost predicate Suspicious(w: World) {
    w.macho && RootsReachOut(w) && !exists b :: Wanted(w, b)
  }

  method BundleExactly(w: World) returns (r: Outcome)
    ensures r.Bundled? <==> Shippable(w) && !Suspicious(w)
    ensures r.NothingCopied? <==> Shippable(w) && Suspicious(w)
    ensures r.Bundled? ==> (forall b :: b in r.copied <==> Wanted(w, b)) && Distinct(r.copied)
  {
    r := Bundle(w);
    hide RootsReachOut, Closed, Travels, DepsOf, Lacking, Wanted, Shippable;
    match r
    case Bundled(copied) =>
      ClosedIsLeast(w, copied);
      ClosedShips(w, copied);
      NoneWanted(w, copied);
    case NothingCopied(_) =>
      ClosedIsLeast(w, []);
      ClosedShips(w, []);
    case CannotInspect(f) =>
      StuckOn(w, f);
    case Missing(f, base) =>
      StuckOn(w, f);
  }

  lemma NoneWanted(w: World, copied: seq<string>)
    requires forall b :: b in copied <==> Wanted(w, b)
    ensures copied == [] <==> !exists b :: Wanted(w, b)
  {
    hide Wanted;
    if copied != [] {
      assert copied[0] in copied;
    }
  }

  lemma StuckOn(w: World, f: Path)
    requires Travels(w, f) && (DepsOf(w, f) == None || exists base :: Lacking(w, DepsOf(w, f).value, base))
    ensures !Shippable(w)
  {
  }

  lemma ClosedShips(w: World, copied: seq<string>)
    requires Closed(w, copied)
    ensures Shippable(w)
  {
    ClosedIsLeast(w, copied);
  }
}
