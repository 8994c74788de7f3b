/** RFC succession in scripts/check_citations.py: the transitive closure of `obsoleted_by`, the rules
    over a snapshot, the collection of a snapshot and its comparison with the RFC Editor. */
module Citations {
  import opened Text
  import opened CitationScan

  datatype Entry = Entry(title: string, status: string, obsoletedBy: seq<nat>)

  type Snapshot = map<nat, Entry>

  // ----- reaching along obsoleted_by -------------------------------------------------------

  /** A graph: what each number is directly followed by. */
  type Graph = nat -> seq<nat>

  /** `(rfcs.get(rfc) or {}).get("obsoleted_by", [])`. */
  function Next(rfcs: Snapshot, rfc: nat): seq<nat> {
    if rfc in rfcs then rfcs[rfc].obsoletedBy else []
  }

  function In(rfcs: Snapshot): Graph {
    rfc => Next(rfcs, rfc)
  }

  ghost predicate Reaches(g: Graph, a: nat, b: nat, steps: nat)
    decreases steps
  {
    if steps == 0 then a == b else exists c :: c in g(a) && Reaches(g, c, b, steps - 1)
  }

  /** `b` is reached from `a` in one step or more. */
  ghost predicate Succeeds(g: Graph, a: nat, b: nat) {
    exists n: nat :: n > 0 && Reaches(g, a, b, n)
  }

  lemma StepThen(g: Graph, a: nat, c: nat, b: nat)
    requires c in g(a) && (c == b || Succeeds(g, c, b))
    ensures Succeeds(g, a, b)
  {
    if c == b {
      assert Reaches(g, c, b, 0);
      assert Reaches(g, a, b, 1);
    } else {
      var n :| n > 0 && Reaches(g, c, b, n);
      assert Reaches(g, a, b, n + 1);
    }
  }

  /** A set closed under steps keeps whoever starts in it. */
  lemma {:induction false} ClosedKeeps(g: Graph, s: set<nat>, a: nat, b: nat, n: nat)
    requires forall x, c | x in s && c in g(x) :: c in s
    requires a in s && Reaches(g, a, b, n)
    ensures b in s
    decreases n
  {
    if n > 0 {
      var c :| c in g(a) && Reaches(g, c, b, n - 1);
      ClosedKeeps(g, s, c, b, n - 1);
    }
  }

  /** A closed set that holds every direct successor holds every successor. */
  lemma ClosedHoldsSuccessors(g: Graph, s: set<nat>, a: nat)
    requires forall x, c | x in s && c in g(x) :: c in s
    requires forall c | c in g(a) :: c in s
    ensures forall b | Succeeds(g, a, b) :: b in s
  {
    forall b | Succeeds(g, a, b)
      ensures b in s
    {
      var n :| n > 0 && Reaches(g, a, b, n);
      var c :| c in g(a) && Reaches(g, c, b, n - 1);
      ClosedKeeps(g, s, c, b, n - 1);
    }
  }

  // ----- successors ------------------------------------------------------------------------

  /** The set the recursive calls of `successors` share. */
  class Seen {
    var members: set<nat>

    constructor ()
      ensures members == {}
    {
      members := {};
    }
  }

  /** Every number some entry is obsoleted by: finite, which is what ends the recursion on a cycle. */
  function Named(rfcs: Snapshot): set<nat> {
    set r, s | r in rfcs && s in rfcs[r].obsoletedBy :: s
  }

  /** What a call adds to the shared set succeeds `rfc`, and is closed but for what was there before. */
  ghost predicate Adds(rfcs: Snapshot, rfc: nat, before: set<nat>, after: set<nat>) {
    && before <= after
    && (forall x | x in after && x !in before :: Succeeds(In(rfcs), rfc, x))
    && (forall x, c | x in after && x !in before && c in Next(rfcs, x) :: c in after)
  }

  /** The first `i` of `next` are in the set. */
  ghost predicate Covers(next: seq<nat>, i: nat, s: set<nat>)
    requires i <= |next|
  {
    forall j | 0 <= j < i :: next[j] in s
  }

  method Visit(rfcs: Snapshot, rfc: nat, seen: Seen)
    modifies seen
    ensures Adds(rfcs, rfc, old(seen.members), seen.members)
    ensures Covers(Next(rfcs, rfc), |Next(rfcs, rfc)|, seen.members)
    decreases |Named(rfcs) - seen.members|
  {
    var next := Next(rfcs, rfc);
    ghost var before := seen.members;
    AddsNothing(rfcs, rfc, before);
    hide *;
    for i := 0 to |next|
      invariant Adds(rfcs, rfc, before, seen.members)
      invariant Covers(next, i, seen.members)
    {
      var s := next[i];
      ghost var held := seen.members;
      if s !in seen.members {
        seen.members := seen.members + {s};
        Shrinks(rfcs, rfc, s, before, held);
        Visit(rfcs, s, seen);
        AddsThrough(rfcs, rfc, s, before, held, seen.members);
      }
      CoversMore(next, i, held, seen.members);
    }
  }

  lemma CoversMore(next: seq<nat>, i: nat, s: set<nat>, s': set<nat>)
    requires i < |next| && Covers(next, i, s) && s <= s' && next[i] in s'
    ensures Covers(next, i + 1, s')
  {
  }

  lemma AddsNothing(rfcs: Snapshot, rfc: nat, before: set<nat>)
    ensures Adds(rfcs, rfc, before, before) && Covers(Next(rfcs, rfc), 0, before)
  {
  }

  lemma Shrinks(rfcs: Snapshot, rfc: nat, s: nat, before: set<nat>, held: set<nat>)
    requires s in Next(rfcs, rfc) && s !in held && Adds(rfcs, rfc, before, held)
    ensures |Named(rfcs) - (held + {s})| < |Named(rfcs) - before|
  {
    assert s in Named(rfcs);
    var less, more := Named(rfcs) - (held + {s}), Named(rfcs) - before;
    assert less <= more - {s};
    SubsetSize(less, more - {s});
  }

  lemma {:induction false} SubsetSize(a: set<nat>, b: set<nat>)
    requires a <= b
    ensures |a| <= |b|
    decreases |a|
  {
    if a != {} {
      var x :| x in a;
      SubsetSize(a - {x}, b - {x});
    }
  }

  lemma AddsThrough(rfcs: Snapshot, rfc: nat, s: nat, before: set<nat>, held: set<nat>, after: set<nat>)
    requires s in Next(rfcs, rfc) && s !in held
    requires Adds(rfcs, rfc, before, held)
    requires Adds(rfcs, s, held + {s}, after) && Covers(Next(rfcs, s), |Next(rfcs, s)|, after)
    ensures Adds(rfcs, rfc, before, after) && held + {s} <= after
  {
    forall x | x in after && x !in before
      ensures Succeeds(In(rfcs), rfc, x)
    {
      if x !in held {
        StepThen(In(rfcs), rfc, s, x);
      }
    }
  }

  /** `successors` as its callers use it: exactly the RFCs reachable in one step or more, on any graph,
      cycles included. */
  method Successors(rfcs: Snapshot, rfc: nat) returns (r: set<nat>)
    ensures forall x :: x in r <==> Succeeds(In(rfcs), rfc, x)
  {
    var seen := new Seen();
    Visit(rfcs, rfc, seen);
    r := seen.members;
    ClosedHoldsSuccessors(In(rfcs), r, rfc);
  }

  // ----- the rules ---------------------------------------------------------------------------

  /** One scanned file, and its citations. */
  datatype File = File(rel: string, hits: seq<Citation>)

  datatype Failure =
    | NoSnapshot
    | NoEntry(rel: string, line: nat, rfc: nat)
    | Obsolete(rel: string, line: nat, rfc: nat)
    | Uncited(rfc: nat)
    | MissingSuccessor(rfc: nat, successor: nat)

  ghost predicate IsCited(cited: seq<File>, rfc: nat) {
    exists f, hit :: f in cited && hit in f.hits && hit.rfc == rfc
  }

  /** Cited, or a successor of something cited. */
  ghost predicate IsWarranted(cited: seq<File>, rfcs: Snapshot, rfc: nat) {
    IsCited(cited, rfc) || exists c :: IsCited(cited, c) && Succeeds(In(rfcs), c, rfc)
  }

  ghost predicate HitFails(rfcs: Snapshot, rel: string, hit: Citation, f: Failure) {
    if hit.rfc !in rfcs then f == NoEntry(rel, hit.line, hit.rfc)
    else
      && rfcs[hit.rfc].obsoletedBy != []
      && (forall p | p in hit.paragraph :: !Succeeds(In(rfcs), hit.rfc, p))
      && f == Obsolete(rel, hit.line, hit.rfc)
  }

  ghost predicate EntryFails(cited: seq<File>, rfcs: Snapshot, rfc: nat, f: Failure)
    requires rfc in rfcs
  {
    || (f == Uncited(rfc) && !IsWarranted(cited, rfcs, rfc))
    || (f.MissingSuccessor? && f.rfc == rfc && f.successor in rfcs[rfc].obsoletedBy && f.successor !in rfcs)
  }

  /** The four rules, as the source's documentation states them. */
  ghost predicate Fails(cited: seq<File>, rfcs: Snapshot, f: Failure) {
    || (exists file, hit :: file in cited && hit in file.hits && HitFails(rfcs, file.rel, hit, f))
    || (exists rfc :: rfc in rfcs && EntryFails(cited, rfcs, rfc, f))
  }

  // The same failures, in the order they are reported.

  ghost function HitFailure(rfcs: Snapshot, rel: string, hit: Citation): Option<Failure> {
    if hit.rfc !in rfcs then Some(NoEntry(rel, hit.line, hit.rfc))
    else if rfcs[hit.rfc].obsoletedBy == [] then None
    else if exists p | p in hit.paragraph :: Succeeds(In(rfcs), hit.rfc, p) then None
    else Some(Obsolete(rel, hit.line, hit.rfc))
  }

  function Listed(f: Option<Failure>): seq<Failure> {
    if f.Some? then [f.value] else []
  }

  /** Citation after citation. */
  ghost function FileFailures(rfcs: Snapshot, rel: string, hits: seq<Citation>): seq<Failure> {
    if hits == [] then []
    else
      var n := |hits| - 1;
      FileFailures(rfcs, rel, hits[..n]) + Listed(HitFailure(rfcs, rel, hits[n]))
  }

  /** File after file. */
  ghost function CitedFailures(rfcs: Snapshot, cited: seq<File>): seq<Failure> {
    if cited == [] then []
    else
      var n := |cited| - 1;
      CitedFailures(rfcs, cited[..n]) + FileFailures(rfcs, cited[n].rel, cited[n].hits)
  }

  function MissingOf(rfcs: Snapshot, rfc: nat, obs: seq<nat>): seq<Failure> {
    if obs == [] then []
    else
      var n := |obs| - 1;
      MissingOf(rfcs, rfc, obs[..n]) + if obs[n] in rfcs then [] else [MissingSuccessor(rfc, obs[n])]
  }

  ghost function EntryFailures(cited: seq<File>, rfcs: Snapshot, rfc: nat): seq<Failure> {
    (if IsWarranted(cited, rfcs, rfc) then [] else [Uncited(rfc)]) + MissingOf(rfcs, rfc, Next(rfcs, rfc))
  }

  ghost function EntriesFailures(cited: seq<File>, rfcs: Snapshot, numbers: seq<nat>): seq<Failure> {
    if numbers == [] then [] else EntryFailures(cited, rfcs, numbers[0]) + EntriesFailures(cited, rfcs, numbers[1..])
  }

  /** Everything reported: file by file in the order given, then entry by entry in the order of numbers. */
  ghost function AllFailures(cited: seq<File>, rfcs: Snapshot): seq<Failure> {
    CitedFailures(rfcs, cited) + EntriesFailures(cited, rfcs, Ascending(rfcs.Keys))
  }

  lemma {:induction false} FileFailuresAre(rfcs: Snapshot, rel: string, hits: seq<Citation>, f: Failure)
    ensures f in FileFailures(rfcs, rel, hits) <==> exists hit :: hit in hits && HitFails(rfcs, rel, hit, f)
  {
    if hits != [] {
      var n := |hits| - 1;
      FileFailuresAre(rfcs, rel, hits[..n], f);
      assert HitFails(rfcs, rel, hits[n], f) <==> HitFailure(rfcs, rel, hits[n]) == Some(f);
      assert forall h :: h in hits <==> h in hits[..n] || h == hits[n];
      hide HitFails, HitFailure;
    }
  }

  lemma {:induction false} CitedFailuresAre(rfcs: Snapshot, cited: seq<File>, f: Failure)
    ensures f in CitedFailures(rfcs, cited) <==>
              exists file, hit :: file in cited && hit in file.hits && HitFails(rfcs, file.rel, hit, f)
  {
    hide HitFails;
    if cited != [] {
      var n := |cited| - 1;
      CitedFailuresAre(rfcs, cited[..n], f);
      FileFailuresAre(rfcs, cited[n].rel, cited[n].hits, f);
      assert forall file :: file in cited <==> file in cited[..n] || file == cited[n];
    }
  }

  lemma {:induction false} MissingAre(rfcs: Snapshot, rfc: nat, obs: seq<nat>, f: Failure)
    ensures f in MissingOf(rfcs, rfc, obs) <==>
              f.MissingSuccessor? && f.rfc == rfc && f.successor in obs && f.successor !in rfcs
  {
    if obs != [] {
      var n := |obs| - 1;
      MissingAre(rfcs, rfc, obs[..n], f);
      assert forall s :: s in obs <==> s in obs[..n] || s == obs[n];
    }
  }

  lemma {:induction false} EntriesFailuresAre(cited: seq<File>, rfcs: Snapshot, numbers: seq<nat>, f: Failure)
    requires forall n | n in numbers :: n in rfcs
    ensures f in EntriesFailures(cited, rfcs, numbers) <==>
              exists rfc :: rfc in numbers && rfc in rfcs && EntryFails(cited, rfcs, rfc, f)
  {
    hide IsWarranted;
    if numbers != [] {
      EntriesFailuresAre(cited, rfcs, numbers[1..], f);
      MissingAre(rfcs, numbers[0], rfcs[numbers[0]].obsoletedBy, f);
      assert f in EntryFailures(cited, rfcs, numbers[0]) <==> EntryFails(cited, rfcs, numbers[0], f);
      assert forall n :: n in numbers <==> n == numbers[0] || n in numbers[1..];
      hide EntryFails, EntryFailures;
    }
  }

  /** What is reported is what the four rules say. */
  lemma FailuresAreThose(cited: seq<File>, rfcs: Snapshot, f: Failure)
    ensures f in AllFailures(cited, rfcs) <==> Fails(cited, rfcs, f)
  {
    AscendingIs(rfcs.Keys);
    CitedFailuresAre(rfcs, cited, f);
    EntriesFailuresAre(cited, rfcs, Ascending(rfcs.Keys), f);
    hide HitFails, EntryFails, CitedFailures, EntriesFailures;
  }

  method CheckHit(rfcs: Snapshot, rel: string, hit: Citation) returns (failure: Option<Failure>)
    ensures failure == HitFailure(rfcs, rel, hit)
  {
    if hit.rfc !in rfcs {
      return Some(NoEntry(rel, hit.line, hit.rfc));
    }
    if rfcs[hit.rfc].obsoletedBy == [] {
      return None;
    }
    var successors := Successors(rfcs, hit.rfc);
    if hit.paragraph * successors != {} {
      ghost var p :| p in hit.paragraph * successors;
      return None;
    }
    assert forall p | p in hit.paragraph :: p !in successors by {
      assert forall p | p in hit.paragraph && p in successors :: p in hit.paragraph * successors;
    }
    return Some(Obsolete(rel, hit.line, hit.rfc));
  }

  method CheckFile(rfcs: Snapshot, file: File) returns (failures: seq<Failure>, rfcsCited: set<nat>)
    ensures failures == FileFailures(rfcs, file.rel, file.hits)
    ensures forall r :: r in rfcsCited <==> exists hit :: hit in file.hits && hit.rfc == r
  {
    failures, rfcsCited := [], {};
    hide HitFailure;
    for i := 0 to |file.hits|
      invariant failures == FileFailures(rfcs, file.rel, file.hits[..i])
      invariant forall r :: r in rfcsCited <==> exists j :: 0 <= j < i && file.hits[j].rfc == r
    {
      rfcsCited := rfcsCited + {file.hits[i].rfc};
      var failure := CheckHit(rfcs, file.rel, file.hits[i]);
      assert file.hits[..i + 1][..i] == file.hits[..i];
      failures := failures + Listed(failure);
    }
    assert file.hits[..|file.hits|] == file.hits;
  }

  /** The files in the order the source goes through them, that of their names. */
  method CheckCitations(cited: seq<File>, snapshot: Option<Snapshot>) returns (failures: seq<Failure>)
    ensures snapshot == None ==> failures == [NoSnapshot]
    ensures snapshot.Some? ==> failures == AllFailures(cited, snapshot.value)
    ensures snapshot.Some? ==> forall f :: f in failures <==> Fails(cited, snapshot.value, f)
  {
    if snapshot == None {
      return [NoSnapshot];
    }
    var rfcs := snapshot.value;
    hide FileFailures, EntryFailures, IsWarranted, Fails, HitFails;
    var ofHits, allCited := CheckFiles(cited, rfcs);
    var reachable := Reachable(rfcs, allCited);
    WarrantedIs(cited, rfcs, allCited, reachable);
    var ofEntries := CheckEntries(cited, rfcs, reachable);
    failures := ofHits + ofEntries;
    forall f
      ensures f in failures <==> Fails(cited, rfcs, f)
    {
      FailuresAreThose(cited, rfcs, f);
    }
  }

  lemma WarrantedIs(cited: seq<File>, rfcs: Snapshot, allCited: set<nat>, reachable: set<nat>)
    requires forall r :: r in allCited <==> IsCited(cited, r)
    requires forall x :: x in reachable <==> x in allCited || exists c :: c in allCited && Succeeds(In(rfcs), c, x)
    ensures forall r :: r in reachable <==> IsWarranted(cited, rfcs, r)
  {
  }

  method CheckFiles(cited: seq<File>, rfcs: Snapshot) returns (failures: seq<Failure>, allCited: set<nat>)
    ensures failures == CitedFailures(rfcs, cited)
    ensures forall r :: r in allCited <==> IsCited(cited, r)
  {
    failures, allCited := [], {};
    hide FileFailures;
    for i := 0 to |cited|
      invariant failures == CitedFailures(rfcs, cited[..i])
      invariant forall r :: r in allCited <==> exists k, hit :: 0 <= k < i && hit in cited[k].hits && hit.rfc == r
    {
      var more, numbers := CheckFile(rfcs, cited[i]);
      assert cited[..i + 1][..i] == cited[..i];
      failures := failures + more;
      allCited := allCited + numbers;
    }
    assert cited[..|cited|] == cited;
  }

  method CheckEntries(cited: seq<File>, rfcs: Snapshot, reachable: set<nat>) returns (failures: seq<Failure>)
    requires forall r :: r in reachable <==> IsWarranted(cited, rfcs, r)
    ensures failures == EntriesFailures(cited, rfcs, Ascending(rfcs.Keys))
  {
    failures := [];
    var todo := rfcs.Keys;
    ghost var all := EntriesFailures(cited, rfcs, Ascending(todo));
    hide IsWarranted, EntryFailures;
    while todo != {}
      invariant todo <= rfcs.Keys
      invariant all == failures + EntriesFailures(cited, rfcs, Ascending(todo))
      decreases |todo|
    {
      var rfc := Least(todo);
      AscendingStep(todo, rfc);
      var more := CheckEntry(cited, rfcs, reachable, rfc);
      AppendAssoc(failures, more, EntriesFailures(cited, rfcs, Ascending(todo - {rfc})));
      failures := failures + more;
      todo := todo - {rfc};
    }
    assert failures + [] == failures;
  }

  lemma AppendAssoc<T>(a: seq<T>, b: seq<T>, c: seq<T>)
    ensures a + (b + c) == (a + b) + c
  {
  }

  // ----- going through numbers in order --------------------------------------------------------

  lemma {:induction false} LeastExists(s: set<nat>) returns (m: nat)
    requires s != {}
    ensures m in s && forall x | x in s :: m <= x
  {
    var x :| x in s;
    if s == {x} {
      m := x;
    } else {
      var k := LeastExists(s - {x});
      m := if x < k then x else k;
      AddedBack(s, x);
    }
  }

  lemma AddedBack(s: set<nat>, x: nat)
    ensures forall y | y in s :: y == x || y in s - {x}
  {
  }

  ghost predicate IsLeast(s: set<nat>, m: nat) {
    m in s && forall x | x in s :: m <= x
  }

  lemma SomeLeast(s: set<nat>)
    requires s != {}
    ensures exists m :: IsLeast(s, m)
  {
    var m := LeastExists(s);
    assert IsLeast(s, m);
  }

  ghost function LeastOf(s: set<nat>): (m: nat)
    requires s != {}
    ensures IsLeast(s, m)
  {
    SomeLeast(s);
    var m :| IsLeast(s, m);
    m
  }

  /** `sorted(s, key=int)`. */
  ghost function Ascending(s: set<nat>): seq<nat>
    decreases |s|
  {
    if s == {} then [] else [LeastOf(s)] + Ascending(s - {LeastOf(s)})
  }

  lemma AscendingStep(s: set<nat>, m: nat)
    requires m in s && forall x | x in s :: m <= x
    ensures Ascending(s) == [m] + Ascending(s - {m})
  {
    assert LeastOf(s) == m;
  }

  lemma {:induction false} AscendingIs(s: set<nat>)
    ensures forall x :: x in Ascending(s) <==> x in s
    ensures forall i, j :: 0 <= i < j < |Ascending(s)| ==> Ascending(s)[i] < Ascending(s)[j]
    decreases |s|
  {
    if s != {} {
      var m := LeastOf(s);
      AscendingIs(s - {m});
      var rest := Ascending(s - {m});
      forall j | 0 <= j < |rest|
        ensures m < rest[j]
      {
        assert rest[j] in rest;
      }
    }
  }

  /** The numbers given, and all their successors. */
  method Reachable(rfcs: Snapshot, cited: set<nat>) returns (r: set<nat>)
    ensures forall x :: x in r <==> x in cited || exists c :: c in cited && Succeeds(In(rfcs), c, x)
  {
    r := cited;
    var todo := cited;
    while todo != {}
      invariant todo <= cited
      invariant forall x :: x in r <==> x in cited || exists c :: c in cited && c !in todo && Succeeds(In(rfcs), c, x)
      decreases |todo|
    {
      var c :| c in todo;
      var more := Successors(rfcs, c);
      r := r + more;
      todo := todo - {c};
    }
  }

  /** The smallest number left: the source goes through a sorted list. */
  method Least(s: set<nat>) returns (m: nat)
    requires s != {}
    ensures m in s && forall x | x in s :: m <= x
  {
    m :| m in s;
    var rest := s - {m};
    while rest != {}
      invariant m in s && rest <= s && forall x | x in s && x !in rest :: m <= x
      decreases |rest|
    {
      var x :| x in rest;
      if x < m {
        m := x;
      }
      rest := rest - {x};
    }
  }

  method CheckEntry(ghost cited: seq<File>, rfcs: Snapshot, reachable: set<nat>, rfc: nat)
    returns (failures: seq<Failure>)
    requires rfc in rfcs && forall r :: r in reachable <==> IsWarranted(cited, rfcs, r)
    ensures failures == EntryFailures(cited, rfcs, rfc)
  {
    hide IsWarranted;
    failures := if rfc in reachable then [] else [Uncited(rfc)];
    ghost var first := failures;
    var obs := rfcs[rfc].obsoletedBy;
    for i := 0 to |obs|
      invariant failures == first + MissingOf(rfcs, rfc, obs[..i])
    {
      assert obs[..i + 1][..i] == obs[..i];
      if obs[i] !in rfcs {
        AppendAssoc(first, MissingOf(rfcs, rfc, obs[..i]), [MissingSuccessor(rfc, obs[i])]);
        failures := failures + [MissingSuccessor(rfc, obs[i])];
      }
    }
    assert obs[..|obs|] == obs;
  }

  // ----- collecting a snapshot -----------------------------------------------------------------

  /** The RFC Editor's record of a document, its `obsoleted_by` ids already numbers. */
  datatype Doc = Doc(title: string, status: string, obsoletedBy: seq<nat>)

  /** What a fetch gives: the document, word that there is none, or a persistent transport failure. */
  datatype Fetched = Found(doc: Doc) | NotFound | Raised

  type Fetch = nat -> Fetched

  function Insert(x: nat, sorted: seq<nat>): (r: seq<nat>)
    ensures forall y :: y in r <==> y == x || y in sorted
  {
    if sorted == [] || x <= sorted[0] then [x] + sorted else [sorted[0]] + Insert(x, sorted[1..])
  }

  function Sorted(xs: seq<nat>): (r: seq<nat>)
    ensures forall y :: y in r <==> y in xs
  {
    if xs == [] then [] else Insert(xs[0], Sorted(xs[1..]))
  }

  function EntryFromJson(doc: Doc): Entry {
    Entry(doc.title, doc.status, Sorted(doc.obsoletedBy))
  }

  /** `xs` are the numbers `ys`, each as often as there, none above the next. */
  predicate InOrder(xs: seq<nat>, ys: seq<nat>) {
    Ordered(xs) && multiset(xs) == multiset(ys)
  }

  predicate Ordered(xs: seq<nat>) {
    forall i, j :: 0 <= i < j < |xs| ==> xs[i] <= xs[j]
  }

  lemma {:induction false} InsertOrdered(x: nat, sorted: seq<nat>)
    requires Ordered(sorted)
    ensures Ordered(Insert(x, sorted)) && multiset(Insert(x, sorted)) == multiset(sorted) + multiset{x}
  {
    hide Ordered;
    if sorted != [] && x > sorted[0] {
      RestOnce(sorted);
      InsertOrdered(x, sorted[1..]);
      LeastFirst(sorted);
      OrderedFirst(sorted[0], Insert(x, sorted[1..]));
    } else {
      LeastFirst(sorted);
      OrderedFirst(x, sorted);
    }
  }

  lemma LeastFirst(xs: seq<nat>)
    requires Ordered(xs)
    ensures xs != [] ==> forall y :: y in xs ==> xs[0] <= y
    ensures xs != [] ==> forall y :: y in xs[1..] ==> xs[0] <= y
  {
  }

  lemma OrderedFirst(x: nat, xs: seq<nat>)
    requires Ordered(xs) && forall y :: y in xs ==> x <= y
    ensures Ordered([x] + xs)
  {
    assert forall i :: 0 <= i < |xs| ==> xs[i] in xs;
  }

  /** Numbers can be put in order in one way only. */
  lemma {:induction false} OrderedOnce(xs: seq<nat>, ys: seq<nat>)
    requires Ordered(xs) && Ordered(ys) && multiset(xs) == multiset(ys)
    ensures xs == ys
  {
    hide Ordered;
    if xs == [] || ys == [] {
      assert |xs| == |multiset(xs)| && |ys| == |multiset(ys)|;
    } else {
      FirstOnce(xs, ys);
      RestOnce(xs);
      RestOnce(ys);
      OrderedOnce(xs[1..], ys[1..]);
      assert xs == [xs[0]] + xs[1..] && ys == [ys[0]] + ys[1..];
    }
  }

  lemma FirstOnce(xs: seq<nat>, ys: seq<nat>)
    requires xs != [] && ys != [] && Ordered(xs) && Ordered(ys) && multiset(xs) == multiset(ys)
    ensures xs[0] == ys[0]
  {
    assert xs[0] in multiset(ys) && ys[0] in multiset(xs);
  }

  lemma RestOnce(xs: seq<nat>)
    requires xs != [] && Ordered(xs)
    ensures Ordered(xs[1..]) && multiset(xs[1..]) == multiset(xs) - multiset{xs[0]}
  {
    assert xs == [xs[0]] + xs[1..];
  }

  lemma {:induction false} SortedInOrder(xs: seq<nat>)
    ensures InOrder(Sorted(xs), xs)
  {
    if xs != [] {
      SortedInOrder(xs[1..]);
      InsertOrdered(xs[0], Sorted(xs[1..]));
      assert xs == [xs[0]] + xs[1..];
    }
  }

  lemma SortedExactly(xs: seq<nat>, ys: seq<nat>)
    ensures xs == Sorted(ys) <==> InOrder(xs, ys)
  {
    SortedInOrder(ys);
    if InOrder(xs, ys) {
      OrderedOnce(xs, Sorted(ys));
    }
  }

  /** The entry says of a document what the RFC Editor says, its successors in order. */
  predicate Records(entry: Entry, doc: Doc) {
    entry.title == doc.title && entry.status == doc.status && InOrder(entry.obsoletedBy, doc.obsoletedBy)
  }

  lemma EntryRecords(entry: Entry, doc: Doc)
    ensures entry == EntryFromJson(doc) <==> Records(entry, doc)
  {
    SortedExactly(entry.obsoletedBy, doc.obsoletedBy);
  }

  /** The graph the RFC Editor describes. */
  function Live(fetch: Fetch): Graph {
    rfc => if fetch(rfc).Found? then EntryFromJson(fetch(rfc).doc).obsoletedBy else []
  }

  /** Cited, or reached from something cited through documents the RFC Editor has. */
  ghost predicate Wanted(fetch: Fetch, cited: set<nat>, rfc: nat) {
    rfc in cited || exists c :: c in cited && Succeeds(Live(fetch), c, rfc)
  }

  lemma WantedNext(fetch: Fetch, cited: set<nat>, rfc: nat, s: nat)
    requires Wanted(fetch, cited, rfc) && s in Live(fetch)(rfc)
    ensures Wanted(fetch, cited, s)
  {
    if rfc in cited {
      StepThen(Live(fetch), rfc, s, s);
    } else {
      var c :| c in cited && Succeeds(Live(fetch), c, rfc);
      StepAfter(Live(fetch), c, rfc, s);
    }
  }

  lemma {:induction false} AppendStep(g: Graph, a: nat, b: nat, s: nat, n: nat)
    requires Reaches(g, a, b, n) && s in g(b)
    ensures Reaches(g, a, s, n + 1)
    decreases n
  {
    if n == 0 {
      assert Reaches(g, s, s, 0);
    } else {
      var c :| c in g(a) && Reaches(g, c, b, n - 1);
      AppendStep(g, c, b, s, n - 1);
    }
  }

  lemma StepAfter(g: Graph, a: nat, b: nat, s: nat)
    requires Succeeds(g, a, b) && s in g(b)
    ensures Succeeds(g, a, s)
  {
    var n :| n > 0 && Reaches(g, a, b, n);
    AppendStep(g, a, b, s, n);
  }

  datatype Collected = Collected(entries: Snapshot, unknown: seq<nat>) | CouldNotFetch(rfc: nat)

  /** Handled already, or still to be. */
  ghost predicate Accounted(rfc: nat, entries: Snapshot, unknown: seq<nat>, queue: seq<nat>) {
    rfc in entries || rfc in unknown || rfc in queue
  }

  /** The worklist's invariant: everything at hand is wanted and recorded as fetched, and everything
      cited or named by an entry is at hand. */
  ghost predicate Underway(fetch: Fetch, cited: set<nat>, entries: Snapshot, unknown: seq<nat>, queue: seq<nat>) {
    && (forall x | Accounted(x, entries, unknown, queue) :: Wanted(fetch, cited, x))
    && (forall x | x in entries :: fetch(x).Found? && entries[x] == EntryFromJson(fetch(x).doc))
    && (forall x | x in unknown :: fetch(x).NotFound?)
    && (forall x | x in cited :: Accounted(x, entries, unknown, queue))
    && (forall x, s | x in entries && s in entries[x].obsoletedBy :: Accounted(s, entries, unknown, queue))
  }

  /** What a finished collection holds: exactly the wanted documents, as fetched, and the wanted numbers
      there is no document for. */
  ghost predicate Complete(fetch: Fetch, cited: set<nat>, entries: Snapshot, unknown: seq<nat>) {
    && (forall x :: x in entries <==> Wanted(fetch, cited, x) && fetch(x).Found?)
    && (forall x | x in entries :: Records(entries[x], fetch(x).doc))
    && (forall x :: x in unknown <==> Wanted(fetch, cited, x) && fetch(x).NotFound?)
    && (forall x | Wanted(fetch, cited, x) :: !fetch(x).Raised?)
  }

  /** `universe` bounds what the documents can name; the source relies on the RFC series being finite. */
  method Collect(cited: set<nat>, fetch: Fetch, ghost universe: set<nat>) returns (r: Collected)
    requires cited <= universe
    requires forall x, s | x in universe && s in Live(fetch)(x) :: s in universe
    ensures r.Collected? ==> Complete(fetch, cited, r.entries, r.unknown)
    ensures r.CouldNotFetch? ==> Wanted(fetch, cited, r.rfc) && fetch(r.rfc).Raised?
  {
    var entries: Snapshot, unknown: seq<nat> := map[], [];
    var queue := SortedSet(cited);
    Begin(fetch, cited, universe, queue);
    while queue != []
      invariant Underway(fetch, cited, entries, unknown, queue) && Bounded(universe, entries, queue)
      decreases |universe - entries.Keys|, |queue|
    {
      hide *;
      var rfc, rest := queue[0], queue[1..];
      DropStep(fetch, cited, universe, entries, unknown, queue);
      if rfc in entries {
        queue := rest;
        continue;
      }
      var got := fetch(rfc);
      if got.Raised? {
        return CouldNotFetch(rfc);
      }
      if got.NotFound? {
        UnknownStep(fetch, cited, entries, unknown, queue);
        unknown, queue := unknown + [rfc], rest;
        continue;
      }
      var entry := EntryFromJson(got.doc);
      EntryStep(fetch, cited, entries, unknown, queue);
      BoundedStep(fetch, universe, entries, queue);
      entries := entries[rfc := entry];
      queue := rest + NotIn(entry.obsoletedBy, entries);
    }
    NothingLeft(fetch, cited, entries, unknown);
    return Collected(entries, unknown);
  }

  ghost predicate Bounded(universe: set<nat>, entries: Snapshot, queue: seq<nat>) {
    entries.Keys <= universe && forall x | x in queue :: x in universe
  }

  lemma Begin(fetch: Fetch, cited: set<nat>, universe: set<nat>, queue: seq<nat>)
    requires cited <= universe && forall x :: x in queue <==> x in cited
    ensures Underway(fetch, cited, map[], [], queue) && Bounded(universe, map[], queue)
  {
  }

  /** The number at the head is wanted, and may be dropped once it is recorded. */
  lemma DropStep(fetch: Fetch, cited: set<nat>, universe: set<nat>, entries: Snapshot, unknown: seq<nat>,
      queue: seq<nat>)
    requires queue != [] && Underway(fetch, cited, entries, unknown, queue) && Bounded(universe, entries, queue)
    ensures Wanted(fetch, cited, queue[0]) && Bounded(universe, entries, queue[1..])
    ensures queue[0] in entries ==> Underway(fetch, cited, entries, unknown, queue[1..])
  {
    assert forall x :: x in queue <==> x == queue[0] || x in queue[1..];
    assert Accounted(queue[0], entries, unknown, queue);
    if queue[0] in entries {
      assert forall x :: Accounted(x, entries, unknown, queue[1..]) <==> Accounted(x, entries, unknown, queue);
    }
  }

  lemma BoundedStep(fetch: Fetch, universe: set<nat>, entries: Snapshot, queue: seq<nat>)
    requires queue != [] && Bounded(universe, entries, queue) && queue[0] !in entries && fetch(queue[0]).Found?
    requires forall x, s | x in universe && s in Live(fetch)(x) :: s in universe
    ensures var entry := EntryFromJson(fetch(queue[0]).doc);
            var entries' := entries[queue[0] := entry];
            && Bounded(universe, entries', queue[1..] + NotIn(entry.obsoletedBy, entries'))
            && |universe - entries'.Keys| < |universe - entries.Keys|
  {
    var rfc := queue[0];
    var entry := EntryFromJson(fetch(rfc).doc);
    var entries' := entries[rfc := entry];
    assert rfc in queue;
    assert universe - entries'.Keys == universe - entries.Keys - {rfc};
    assert entry.obsoletedBy == Live(fetch)(rfc);
  }

  method SortedSet(s: set<nat>) returns (r: seq<nat>)
    ensures forall x :: x in r <==> x in s
  {
    r := [];
    var todo := s;
    while todo != {}
      invariant todo <= s && forall x :: x in r <==> x in s && x !in todo
      decreases |todo|
    {
      var m := Least(todo);
      r := r + [m];
      todo := todo - {m};
    }
  }

  /** The successors the loop appends to the queue. */
  function NotIn(xs: seq<nat>, entries: Snapshot): (r: seq<nat>)
    ensures forall x :: x in r <==> x in xs && x !in entries
  {
    if xs == [] then []
    else if xs[0] in entries then NotIn(xs[1..], entries)
    else [xs[0]] + NotIn(xs[1..], entries)
  }

  lemma UnknownStep(fetch: Fetch, cited: set<nat>, entries: Snapshot, unknown: seq<nat>, queue: seq<nat>)
    requires queue != [] && Underway(fetch, cited, entries, unknown, queue) && fetch(queue[0]).NotFound?
    ensures Underway(fetch, cited, entries, unknown + [queue[0]], queue[1..])
  {
    assert forall x :: x in queue <==> x == queue[0] || x in queue[1..];
    assert forall x :: Accounted(x, entries, unknown + [queue[0]], queue[1..]) <==>
          Accounted(x, entries, unknown, queue);
  }

  lemma EntryStep(fetch: Fetch, cited: set<nat>, entries: Snapshot, unknown: seq<nat>, queue: seq<nat>)
    requires queue != [] && Underway(fetch, cited, entries, unknown, queue)
    requires queue[0] !in entries && fetch(queue[0]).Found?
    ensures var entry := EntryFromJson(fetch(queue[0]).doc);
            var entries' := entries[queue[0] := entry];
            Underway(fetch, cited, entries', unknown, queue[1..] + NotIn(entry.obsoletedBy, entries'))
  {
    var rfc, rest := queue[0], queue[1..];
    var entry := EntryFromJson(fetch(rfc).doc);
    var entries' := entries[rfc := entry];
    var queue' := rest + NotIn(entry.obsoletedBy, entries');
    assert forall x :: x in queue <==> x == rfc || x in rest;
    assert Accounted(rfc, entries, unknown, queue);
    forall x | Accounted(x, entries', unknown, queue')
      ensures Wanted(fetch, cited, x)
    {
      if !Accounted(x, entries, unknown, queue) {
        WantedNext(fetch, cited, rfc, x);
      }
    }
    assert forall x | Accounted(x, entries, unknown, queue) :: Accounted(x, entries', unknown, queue');
  }

  lemma NothingLeft(fetch: Fetch, cited: set<nat>, entries: Snapshot, unknown: seq<nat>)
    requires Underway(fetch, cited, entries, unknown, [])
    ensures Complete(fetch, cited, entries, unknown)
  {
    AllRecorded(fetch, cited, entries, unknown);
    AllReached(fetch, cited, entries, unknown);
    hide Records, EntryFromJson, Wanted;
    assert forall x | x in entries || x in unknown :: Accounted(x, entries, unknown, []);
  }

  lemma AllRecorded(fetch: Fetch, cited: set<nat>, entries: Snapshot, unknown: seq<nat>)
    requires Underway(fetch, cited, entries, unknown, [])
    ensures forall x | x in entries :: fetch(x).Found? && Records(entries[x], fetch(x).doc)
  {
    hide Wanted;
    forall x | x in entries
      ensures Records(entries[x], fetch(x).doc)
    {
      EntryRecords(entries[x], fetch(x).doc);
    }
  }

  lemma AllReached(fetch: Fetch, cited: set<nat>, entries: Snapshot, unknown: seq<nat>)
    requires Underway(fetch, cited, entries, unknown, [])
    ensures forall x | Wanted(fetch, cited, x) :: x in entries || x in unknown
  {
    hide EntryFromJson;
    var closed := entries.Keys + set x | x in unknown;
    forall x, s | x in closed && s in Live(fetch)(x)
      ensures s in closed
    {
      assert x in entries ==> Accounted(s, entries, unknown, []);
    }
    forall x | Wanted(fetch, cited, x)
      ensures x in entries || x in unknown
    {
      if x in cited {
        assert Accounted(x, entries, unknown, []);
      } else {
        var c :| c in cited && Succeeds(Live(fetch), c, x);
        assert Accounted(c, entries, unknown, []);
        ClosedHoldsSuccessors(Live(fetch), closed, c);
      }
    }
  }

  // ----- a collected snapshot passes -----------------------------------------------------------

  lemma EntriesLive(fetch: Fetch, cited: set<nat>, entries: Snapshot, unknown: seq<nat>)
    requires Complete(fetch, cited, entries, unknown)
    ensures forall x | x in entries :: entries[x].obsoletedBy == Live(fetch)(x)
  {
    forall x | x in entries
      ensures entries[x].obsoletedBy == Live(fetch)(x)
    {
      EntryRecords(entries[x], fetch(x).doc);
    }
  }

  /** On what was collected, the snapshot's graph and the RFC Editor's agree. */
  lemma SameNext(fetch: Fetch, cited: set<nat>, entries: Snapshot, unknown: seq<nat>, a: nat)
    requires Complete(fetch, cited, entries, unknown) && Wanted(fetch, cited, a)
    ensures In(entries)(a) == Live(fetch)(a)
  {
    hide Records;
    EntriesLive(fetch, cited, entries, unknown);
  }

  lemma {:induction false} CollectedReaches(fetch: Fetch, cited: set<nat>, entries: Snapshot, unknown: seq<nat>,
      a: nat, b: nat, n: nat)
    requires Complete(fetch, cited, entries, unknown) && Wanted(fetch, cited, a)
    ensures Reaches(In(entries), a, b, n) <==> Reaches(Live(fetch), a, b, n)
    decreases n
  {
    hide *;
    if n == 0 {
      ReachesNone(In(entries), Live(fetch), a, b);
    } else {
      SameNext(fetch, cited, entries, unknown, a);
      forall c | c in In(entries)(a)
        ensures Reaches(In(entries), c, b, n - 1) <==> Reaches(Live(fetch), c, b, n - 1)
      {
        WantedNext(fetch, cited, a, c);
        CollectedReaches(fetch, cited, entries, unknown, c, b, n - 1);
      }
      ReachesAlike(In(entries), Live(fetch), a, b, n);
    }
  }

  lemma ReachesNone(g: Graph, h: Graph, a: nat, b: nat)
    ensures Reaches(g, a, b, 0) <==> Reaches(h, a, b, 0)
  {
  }

  lemma ReachesAlike(g: Graph, h: Graph, a: nat, b: nat, n: nat)
    requires n > 0 && g(a) == h(a)
    requires forall c | c in g(a) :: Reaches(g, c, b, n - 1) <==> Reaches(h, c, b, n - 1)
    ensures Reaches(g, a, b, n) <==> Reaches(h, a, b, n)
  {
  }

  ghost predicate AllCited(cited: seq<File>, numbers: set<nat>) {
    forall r :: r in numbers <==> IsCited(cited, r)
  }

  /** Everything recorded is warranted by a citation. */
  lemma CollectedWarranted(fetch: Fetch, files: seq<File>, cited: set<nat>, entries: Snapshot, unknown: seq<nat>,
      rfc: nat)
    requires Complete(fetch, cited, entries, unknown) && AllCited(files, cited) && rfc in entries
    ensures IsWarranted(files, entries, rfc)
  {
    if !IsCited(files, rfc) {
      var c :| c in cited && Succeeds(Live(fetch), c, rfc);
      var n :| n > 0 && Reaches(Live(fetch), c, rfc, n);
      CollectedReaches(fetch, cited, entries, unknown, c, rfc, n);
      assert Succeeds(In(entries), c, rfc);
    }
  }

  /** Over a snapshot just collected for the same citations, no entry is uncited; and an entry or a
      successor is missing exactly when some wanted number is unknown to the RFC Editor. So when none
      is, the only rule that can still fail is the one about obsolete citations. */
  lemma CollectedSnapshotPasses(fetch: Fetch, files: seq<File>, cited: set<nat>, entries: Snapshot, unknown: seq<nat>)
    requires Complete(fetch, cited, entries, unknown) && AllCited(files, cited)
    ensures forall f | Fails(files, entries, f) :: !f.Uncited?
    ensures (exists f :: Fails(files, entries, f) && !f.Obsolete?) <==> unknown != []
  {
    forall f | Fails(files, entries, f)
      ensures !f.Uncited?
      ensures !f.Obsolete? ==> unknown != []
    {
      NotUncited(fetch, files, cited, entries, unknown, f);
      if !f.Obsolete? {
        MissingIsUnknown(fetch, files, cited, entries, unknown, f);
      }
    }
    if unknown != [] {
      var f := UnknownIsMissing(fetch, files, cited, entries, unknown, unknown[0]);
    }
  }

  lemma NotUncited(fetch: Fetch, files: seq<File>, cited: set<nat>, entries: Snapshot, unknown: seq<nat>, f: Failure)
    requires Complete(fetch, cited, entries, unknown) && AllCited(files, cited) && Fails(files, entries, f)
    ensures !f.Uncited?
  {
    if rfc :| rfc in entries && EntryFails(files, entries, rfc, f) {
      CollectedWarranted(fetch, files, cited, entries, unknown, rfc);
    }
  }

  lemma MissingIsUnknown(fetch: Fetch, files: seq<File>, cited: set<nat>, entries: Snapshot, unknown: seq<nat>,
      f: Failure)
    requires Complete(fetch, cited, entries, unknown) && AllCited(files, cited) && Fails(files, entries, f) &&
            !f.Obsolete?
    ensures unknown != []
  {
    hide Records;
    EntriesLive(fetch, cited, entries, unknown);
    NotUncited(fetch, files, cited, entries, unknown, f);
    if file, hit :| file in files && hit in file.hits && HitFails(entries, file.rel, hit, f) {
      assert IsCited(files, hit.rfc);
      assert hit.rfc in unknown;
    } else {
      var rfc :| rfc in entries && EntryFails(files, entries, rfc, f);
      assert f.successor in Live(fetch)(rfc);
      WantedNext(fetch, cited, rfc, f.successor);
      assert f.successor in unknown;
    }
  }

  lemma UnknownIsMissing(fetch: Fetch, files: seq<File>, cited: set<nat>, entries: Snapshot, unknown: seq<nat>,
      rfc: nat) returns (f: Failure)
    requires Complete(fetch, cited, entries, unknown) && AllCited(files, cited) && rfc in unknown
    ensures Fails(files, entries, f) && !f.Obsolete?
  {
    hide Records;
    EntriesLive(fetch, cited, entries, unknown);
    assert rfc !in entries;
    if rfc in cited {
      assert IsCited(files, rfc);
      var file, hit :| file in files && hit in file.hits && hit.rfc == rfc;
      f := NoEntry(file.rel, hit.line, rfc);
      assert HitFails(entries, file.rel, hit, f);
    } else {
      var c :| c in cited && Succeeds(Live(fetch), c, rfc);
      var before := LastBefore(fetch, cited, c, rfc);
      f := MissingSuccessor(before, rfc);
      assert EntryFails(files, entries, before, f);
    }
  }

  /** A successor is named by some wanted document. */
  lemma LastBefore(fetch: Fetch, cited: set<nat>, a: nat, b: nat) returns (before: nat)
    requires Wanted(fetch, cited, a) && Succeeds(Live(fetch), a, b)
    ensures Wanted(fetch, cited, before) && b in Live(fetch)(before) && fetch(before).Found?
  {
    var n :| n > 0 && Reaches(Live(fetch), a, b, n);
    before := LastStep(fetch, cited, a, b, n);
  }

  lemma {:induction false} LastStep(fetch: Fetch, cited: set<nat>, a: nat, b: nat, n: nat) returns (before: nat)
    requires n > 0 && Wanted(fetch, cited, a) && Reaches(Live(fetch), a, b, n)
    ensures Wanted(fetch, cited, before) && b in Live(fetch)(before) && fetch(before).Found?
    decreases n
  {
    var c :| c in Live(fetch)(a) && Reaches(Live(fetch), c, b, n - 1);
    if n == 1 {
      before := a;
    } else {
      WantedNext(fetch, cited, a, c);
      before := LastStep(fetch, cited, c, b, n - 1);
    }
  }

  lemma NamedBy(fetch: Fetch, cited: set<nat>, entries: Snapshot, unknown: seq<nat>, x: nat) returns (before: nat)
    requires Complete(fetch, cited, entries, unknown) && x in unknown && x !in cited
    ensures before in entries && x in entries[before].obsoletedBy
  {
    hide Records;
    EntriesLive(fetch, cited, entries, unknown);
    var c :| c in cited && Succeeds(Live(fetch), c, x);
    before := LastBefore(fetch, cited, c, x);
  }

  /** The source's documentation calls `unknown` the cited numbers there is no document for. That is what it
      holds exactly when every successor an entry names is cited or has a document. */
  lemma UnknownCitedExactly(fetch: Fetch, cited: set<nat>, entries: Snapshot, unknown: seq<nat>)
    requires Complete(fetch, cited, entries, unknown)
    ensures (forall x | x in unknown :: x in cited) <==>
              forall x, s | x in entries && s in entries[x].obsoletedBy :: s in cited || fetch(s).Found?
  {
    hide Records;
    EntriesLive(fetch, cited, entries, unknown);
    if forall x | x in unknown :: x in cited {
      forall x, s | x in entries && s in entries[x].obsoletedBy
        ensures s in cited || fetch(s).Found?
      {
        WantedNext(fetch, cited, x, s);
      }
    }
    if forall x, s | x in entries && s in entries[x].obsoletedBy :: s in cited || fetch(s).Found? {
      forall x | x in unknown
        ensures x in cited
      {
        if x !in cited {
          var before := NamedBy(fetch, cited, entries, unknown, x);
        }
      }
    }
  }

  /** RFC 821 names RFC 2821 its successor; with no document for that one, `unknown` holds it uncited. */
  method UnknownNeedNotBeCited() returns (r: Collected)
    ensures r.Collected? && 2821 in r.unknown && 2821 !in {821}
  {
    var fetch: Fetch := n => if n == 821 then Found(Doc("", "", [2821])) else NotFound;
    assert EntryFromJson(Doc("", "", [2821])).obsoletedBy == [2821];
    assert 2821 in Live(fetch)(821);
    r := Collect({821}, fetch, {821, 2821});
    assert 821 in r.entries;
    WantedNext(fetch, {821}, 821, 2821);
  }

  // ----- comparing with the RFC Editor -----------------------------------------------------------

  datatype Difference =
    | SnapshotMissing
    | CouldNotAsk(rfc: nat)
    | NoSuchDocument(rfc: nat)
    | ObsoletedByChanged(rfc: nat)
    | StatusChanged(rfc: nat)

  function EntryDifference(rfc: nat, entry: Entry, got: Fetched): Option<Difference> {
    match got
    case Raised => Some(CouldNotAsk(rfc))
    case NotFound => Some(NoSuchDocument(rfc))
    case Found(doc) =>
      var now := EntryFromJson(doc);
      if now.obsoletedBy != entry.obsoletedBy then Some(ObsoletedByChanged(rfc))
      else if now.status != entry.status then Some(StatusChanged(rfc))
      else None
  }

  /** When there is something to report of an entry, and what. */
  predicate Differs(rfcs: Snapshot, fetch: Fetch, d: Difference) {
    match d
    case SnapshotMissing => false
    case CouldNotAsk(n) => n in rfcs && fetch(n).Raised?
    case NoSuchDocument(n) => n in rfcs && fetch(n).NotFound?
    case ObsoletedByChanged(n) =>
      n in rfcs && fetch(n).Found? && !InOrder(rfcs[n].obsoletedBy, fetch(n).doc.obsoletedBy)
    case StatusChanged(n) =>
      && n in rfcs && fetch(n).Found? && InOrder(rfcs[n].obsoletedBy, fetch(n).doc.obsoletedBy)
      && rfcs[n].status != fetch(n).doc.status
  }

  /** The entry a difference is about. */
  function About(d: Difference): nat {
    match d
    case SnapshotMissing => 0
    case CouldNotAsk(n) => n
    case NoSuchDocument(n) => n
    case ObsoletedByChanged(n) => n
    case StatusChanged(n) => n
  }

  lemma EntryDiffers(rfcs: Snapshot, fetch: Fetch, n: nat, d: Difference)
    requires n in rfcs
    ensures EntryDifference(n, rfcs[n], fetch(n)) == Some(d) <==> Differs(rfcs, fetch, d) && About(d) == n
  {
    if fetch(n).Found? {
      EntryRecords(EntryFromJson(fetch(n).doc), fetch(n).doc);
      SortedExactly(rfcs[n].obsoletedBy, fetch(n).doc.obsoletedBy);
    }
  }

  function ListedDifference(d: Option<Difference>): seq<Difference> {
    if d.Some? then [d.value] else []
  }

  function Differences(rfcs: Snapshot, fetch: Fetch, numbers: seq<nat>): seq<Difference> {
    if numbers == [] then []
    else
      var n := numbers[0];
      (if n in rfcs then ListedDifference(EntryDifference(n, rfcs[n], fetch(n))) else [])
      + Differences(rfcs, fetch, numbers[1..])
  }

  lemma {:induction false} DifferencesAre(rfcs: Snapshot, fetch: Fetch, numbers: seq<nat>, d: Difference)
    ensures d in Differences(rfcs, fetch, numbers) <==>
              exists n :: n in numbers && n in rfcs && EntryDifference(n, rfcs[n], fetch(n)) == Some(d)
  {
    hide EntryDifference;
    if numbers != [] {
      DifferencesAre(rfcs, fetch, numbers[1..], d);
      assert forall n :: n in numbers <==> n == numbers[0] || n in numbers[1..];
    }
  }

  /** What is reported, entry by entry in the order of numbers. */
  ghost function AllDifferences(rfcs: Snapshot, fetch: Fetch): seq<Difference> {
    Differences(rfcs, fetch, Ascending(rfcs.Keys))
  }

  /** What is reported is what differs, one difference an entry at most, in the order of the numbers. */
  method LiveDiff(snapshot: Option<Snapshot>, fetch: Fetch) returns (differences: seq<Difference>)
    ensures snapshot == None ==> differences == [SnapshotMissing]
    ensures snapshot.Some? ==> forall d :: d in differences <==> Differs(snapshot.value, fetch, d)
    ensures forall i, j :: 0 <= i < j < |differences| ==> About(differences[i]) < About(differences[j])
  {
    if snapshot == None {
      return [SnapshotMissing];
    }
    differences := SnapshotDiff(snapshot.value, fetch);
    DifferencesExactly(snapshot.value, fetch);
  }

  lemma DifferencesExactly(rfcs: Snapshot, fetch: Fetch)
    ensures forall d :: d in AllDifferences(rfcs, fetch) <==> Differs(rfcs, fetch, d)
    ensures Rising(AllDifferences(rfcs, fetch))
  {
    hide Differs, EntryDifference;
    var numbers := Ascending(rfcs.Keys);
    AscendingIs(rfcs.Keys);
    forall d
      ensures d in AllDifferences(rfcs, fetch) <==> Differs(rfcs, fetch, d)
    {
      DifferencesAre(rfcs, fetch, numbers, d);
      forall n | n in rfcs
        ensures EntryDifference(n, rfcs[n], fetch(n)) == Some(d) <==> Differs(rfcs, fetch, d) && About(d) == n
      {
        EntryDiffers(rfcs, fetch, n, d);
      }
      if Differs(rfcs, fetch, d) {
        AboutRecorded(rfcs, fetch, d);
      }
    }
    DifferencesRise(rfcs, fetch, numbers);
  }

  lemma AboutRecorded(rfcs: Snapshot, fetch: Fetch, d: Difference)
    requires Differs(rfcs, fetch, d)
    ensures About(d) in rfcs
  {
  }

  predicate Rising(differences: seq<Difference>) {
    forall i, j :: 0 <= i < j < |differences| ==> About(differences[i]) < About(differences[j])
  }

  lemma {:induction false} DifferencesRise(rfcs: Snapshot, fetch: Fetch, numbers: seq<nat>)
    requires forall i, j :: 0 <= i < j < |numbers| ==> numbers[i] < numbers[j]
    ensures Rising(Differences(rfcs, fetch, numbers))
    ensures forall d :: d in Differences(rfcs, fetch, numbers) ==> About(d) in numbers
  {
    hide Rising, About;
    if numbers == [] {
      NoneRises();
    } else {
      var n, rest := numbers[0], Differences(rfcs, fetch, numbers[1..]);
      DifferencesRise(rfcs, fetch, numbers[1..]);
      var first := if n in rfcs then ListedDifference(EntryDifference(n, rfcs[n], fetch(n))) else [];
      FirstIsAbout(rfcs, fetch, n);
      hide EntryDifference, ListedDifference;
      FirstRises(first, n, rest, numbers[1..]);
    }
  }

  lemma NoneRises()
    ensures Rising([])
  {
  }

  lemma FirstIsAbout(rfcs: Snapshot, fetch: Fetch, n: nat)
    ensures n in rfcs ==>
              var first := ListedDifference(EntryDifference(n, rfcs[n], fetch(n)));
              |first| <= 1 && forall d :: d in first ==> About(d) == n
  {
  }

  lemma FirstRises(first: seq<Difference>, n: nat, rest: seq<Difference>, numbers: seq<nat>)
    requires |first| <= 1 && (forall d :: d in first ==> About(d) == n) && Rising(rest)
    requires (forall d :: d in rest ==> About(d) in numbers) && forall x :: x in numbers ==> n < x
    ensures Rising(first + rest)
  {
    hide About;
    forall i | 0 <= i < |rest|
      ensures n < About(rest[i])
    {
      assert rest[i] in rest;
    }
    assert forall i :: 0 <= i < |first| ==> first[i] in first;
  }

  method SnapshotDiff(rfcs: Snapshot, fetch: Fetch) returns (differences: seq<Difference>)
    ensures differences == AllDifferences(rfcs, fetch)
  {
    hide *;
    differences := [];
    var todo := rfcs.Keys;
    DiffStart(rfcs, fetch);
    while todo != {}
      invariant todo <= rfcs.Keys
      invariant AllDifferences(rfcs, fetch) == differences + Differences(rfcs, fetch, Ascending(todo))
      decreases |todo|
    {
      var rfc := Least(todo);
      var d := ListedDifference(EntryDifference(rfc, rfcs[rfc], fetch(rfc)));
      DiffStep(rfcs, fetch, todo, rfc);
      AppendAssoc(differences, d, Differences(rfcs, fetch, Ascending(todo - {rfc})));
      differences := differences + d;
      todo := todo - {rfc};
    }
    DiffEnd(rfcs, fetch, differences);
  }

  lemma DiffStart(rfcs: Snapshot, fetch: Fetch)
    ensures AllDifferences(rfcs, fetch) == [] + Differences(rfcs, fetch, Ascending(rfcs.Keys))
  {
  }

  lemma DiffStep(rfcs: Snapshot, fetch: Fetch, todo: set<nat>, rfc: nat)
    requires rfc in todo && rfc in rfcs && forall x | x in todo :: rfc <= x
    ensures Differences(rfcs, fetch, Ascending(todo)) ==
              ListedDifference(EntryDifference(rfc, rfcs[rfc], fetch(rfc))) +
                  Differences(rfcs, fetch, Ascending(todo - {rfc}))
  {
    hide EntryDifference, ListedDifference, Ascending;
    AscendingStep(todo, rfc);
    var rest := Ascending(todo - {rfc});
    assert ([rfc] + rest)[0] == rfc && ([rfc] + rest)[1..] == rest;
  }

  lemma DiffEnd(rfcs: Snapshot, fetch: Fetch, differences: seq<Difference>)
    ensures differences + Differences(rfcs, fetch, Ascending({})) == differences
  {
  }

  /** A snapshot compared with the very answers it was collected from differs in nothing. */
  method CollectThenDiff(cited: set<nat>, fetch: Fetch, ghost universe: set<nat>)
    returns (r: Collected, differences: seq<Difference>)
    requires cited <= universe
    requires forall x, s | x in universe && s in Live(fetch)(x) :: s in universe
    ensures r.Collected? ==> Complete(fetch, cited, r.entries, r.unknown) && differences == []
  {
    differences := [];
    r := Collect(cited, fetch, universe);
    if r.Collected? {
      differences := LiveDiff(Some(r.entries), fetch);
      SomeMember(differences);
    }
  }

  lemma SomeMember<T>(s: seq<T>)
    ensures s == [] || exists x :: x in s
  {
    if s != [] {
      assert s[0] in s;
    }
  }
}
