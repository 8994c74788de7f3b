/** `drive_section` and `compare` of scripts/autobahn_runner.py: a conformance section run, resumed a
    bounded number of times, and its verdicts compared with the pinned ones. */
module AutobahnRunner {
  import opened Text
  import opened Ordering

  type Case = string
  type Behavior = string
  type Verdicts = map<Case, Behavior>

  const RESUMES := 3

  /** One run of wstest: what it scored, and the connect failures in its transcript. */
  datatype Attempt = Attempt(got: Verdicts, failures: seq<string>)

  /** The runner: any answer at all to attempt `n` over the cases not in `done`. */
  type Runner = (nat, set<Case>) -> Attempt

  /** What is wrong with the server when it is asked after attempt `n`, if anything. */
  type Server = nat -> Option<string>

  /** A section to drive: its pinned count, the runner and the server. */
  datatype World = World(expected: nat, attempt: Runner, server: Server)

  datatype Cause = TooMany | ServerProblem(what: string) | NoConnectFailure | Dropped(line: string)

  /** Why a section ran `ran` of `expected` cases; only `Dropped` earns a resume. */
  function ThinCause(ran: nat, expected: nat, failures: seq<string>, problem: Option<string>): Cause {
    if ran > expected then TooMany
    else if problem.Some? then ServerProblem(problem.value)
    else if failures == [] then NoConnectFailure
    else Dropped(failures[|failures| - 1])
  }

  datatype Reason = ScoredTwice(n: nat, again: set<Case>) | Thin(n: nat, cause: Cause) | StillThin(cause: Cause)

  datatype Resume = Resume(line: string, at: nat)

  datatype Outcome = Passed(results: Verdicts, resumed: seq<Resume>) | SectionFailed(reason: Reason)

  /** What an attempt was given to skip. */
  datatype Call = Call(n: nat, done: set<Case>)

  // ----- one attempt -----------------------------------------------------------------------

  datatype Step =
    | Finish(results: Verdicts)
    | Again(results: Verdicts, line: string)
    | Fail(reason: Reason)

  /** The body of the source's loop: attempt `n` on top of the results so far. */
  function StepOf(w: World, n: nat, results: Verdicts): (st: Step)
    ensures st.Again? ==> n <= RESUMES
  {
    var a := w.attempt(n, results.Keys);
    var again := a.got.Keys * results.Keys;
    if again != {} then Fail(ScoredTwice(n, again))
    else
      var merged := results + a.got;
      if |merged| == w.expected then Finish(merged)
      else
        match ThinCause(|merged|, w.expected, a.failures, w.server(n))
        case Dropped(line) => if n > RESUMES then Fail(StillThin(Dropped(line))) else Again(merged, line)
        case cause => Fail(Thin(n, cause))
  }

  /** `on_thin` is called with (attempt, its own cases, the section's so far) for every attempt that did
      not complete the section. */
  datatype Evidence = Evidence(n: nat, ran: nat, total: nat)

  function EvidenceOf(w: World, n: nat, results: Verdicts): seq<Evidence> {
    var a := w.attempt(n, results.Keys);
    if a.got.Keys * results.Keys != {} then [Evidence(n, |a.got|, |results| + |a.got|)]
    else if |results + a.got| == w.expected then []
    else [Evidence(n, |a.got|, |results + a.got|)]
  }

  datatype Run = Run(outcome: Outcome, calls: seq<Call>, kept: seq<Evidence>)

  /** A whole section from attempt `n` on. */
  function RunFrom(w: World, n: nat, results: Verdicts, resumed: seq<Resume>,
                   calls: seq<Call>, kept: seq<Evidence>): Run
    requires 1 <= n <= RESUMES + 1
    decreases RESUMES + 1 - n
  {
    var calls', kept' := calls + [Call(n, results.Keys)], kept + EvidenceOf(w, n, results);
    match StepOf(w, n, results)
    case Finish(merged) => Run(Passed(merged, resumed), calls', kept')
    case Fail(reason) => Run(SectionFailed(reason), calls', kept')
    case Again(merged, line) =>
      RunFrom(w, n + 1, merged, resumed + [Resume(line, |merged|)], calls', kept')
  }

  function Section(w: World): Run {
    RunFrom(w, 1, map[], [], [], [])
  }

  /** The source's loop over at most RESUMES + 1 attempts. Behind it there is nothing: the last turn
      either returns or fails. */
  method DriveSection(w: World) returns (r: Run)
    ensures r == Section(w)
  {
    var results: Verdicts, resumed: seq<Resume>, calls: seq<Call>, kept: seq<Evidence> := map[], [], [], [];
    var n := 1;
    hide StepOf, EvidenceOf;
    while n < RESUMES + 2
      invariant 1 <= n <= RESUMES + 1
      invariant Section(w) == RunFrom(w, n, results, resumed, calls, kept)
      decreases RESUMES + 2 - n
    {
      calls := calls + [Call(n, results.Keys)];
      kept := kept + EvidenceOf(w, n, results);
      match StepOf(w, n, results)
      case Finish(merged) =>
        return Run(Passed(merged, resumed), calls, kept);
      case Fail(reason) =>
        return Run(SectionFailed(reason), calls, kept);
      case Again(merged, line) =>
        results := merged;
        resumed := resumed + [Resume(line, |merged|)];
        n := n + 1;
    }
    assert false;
    return Run(Passed(results, resumed), calls, kept);
  }

  // ----- over whole runs -------------------------------------------------------------------

  /** What `i` attempts in a row have scored, each told of everything before it. */
  function Scored(w: World, i: nat): Verdicts {
    if i == 0 then map[] else Scored(w, i - 1) + w.attempt(i, Scored(w, i - 1).Keys).got
  }

  /** What attempt `i` (from 1) scored. */
  function GotBy(w: World, i: nat): Verdicts
    requires i > 0
  {
    w.attempt(i, Scored(w, i - 1).Keys).got
  }

  /** Attempt `i` scored nothing an earlier one had. */
  predicate Fresh(w: World, i: nat)
    requires i > 0
  {
    GotBy(w, i).Keys !! Scored(w, i - 1).Keys
  }

  predicate AllFresh(w: World, last: nat) {
    forall i :: 1 <= i <= last ==> Fresh(w, i)
  }

  /** Attempt `i` left the section short for want of a connect, with the server answering, and scored
      nothing an earlier one had. */
  predicate DroppedAt(w: World, i: nat)
    requires i > 0
  {
    && Fresh(w, i)
    && |Scored(w, i)| < w.expected
    && w.server(i) == None
    && w.attempt(i, Scored(w, i - 1).Keys).failures != []
  }

  /** Every attempt before `n` was a dropped connect. */
  predicate AllDropped(w: World, n: nat) {
    forall i :: 1 <= i < n ==> DroppedAt(w, i)
  }

  lemma OneMoreDropped(w: World, n: nat)
    requires n > 0 && AllDropped(w, n) && DroppedAt(w, n)
    ensures AllDropped(w, n + 1)
  {
    hide DroppedAt;
  }

  /** Attempt `i` brought the section to its count, scoring nothing twice. */
  predicate CompletesAt(w: World, i: nat)
    requires i > 0
  {
    Fresh(w, i) && |Scored(w, i)| == w.expected
  }

  /** The one way a section passes: some attempt within the limit completes it, and every one before
      it was a dropped connect. */
  predicate PassesAt(w: World, last: nat) {
    && 1 <= last <= RESUMES + 1
    && CompletesAt(w, last)
    && AllDropped(w, last)
  }

  /** The first `i` calls, each given exactly the ids scored before it. */
  function CallsUpTo(w: World, i: nat): seq<Call> {
    if i == 0 then [] else CallsUpTo(w, i - 1) + [Call(i, Scored(w, i - 1).Keys)]
  }

  /** What an attempt cut short is remembered by: its last connect failure, and how far the section was. */
  function NoteOf(w: World, i: nat): Resume
    requires i > 0
  {
    var failures := w.attempt(i, Scored(w, i - 1).Keys).failures;
    Resume(if failures == [] then "" else failures[|failures| - 1], |Scored(w, i)|)
  }

  function NotesUpTo(w: World, i: nat): (notes: seq<Resume>)
    ensures |notes| == i
  {
    if i == 0 then [] else NotesUpTo(w, i - 1) + [NoteOf(w, i)]
  }

  /** The evidence of the first `i` attempts, none of which completed the section. */
  function EvidenceUpTo(w: World, i: nat): seq<Evidence> {
    if i == 0 then []
    else EvidenceUpTo(w, i - 1) + [Evidence(i, |GotBy(w, i)|, |Scored(w, i - 1)| + |GotBy(w, i)|)]
  }

  /** Why a section whose attempts ended with `last` was not believed. */
  predicate FailedFor(w: World, last: nat, reason: Reason)
    requires last > 0
  {
    var n, server := |Scored(w, last)|, w.server(last);
    match reason
    case ScoredTwice(at, again) => at == last && again == GotBy(w, last).Keys * Scored(w, last - 1).Keys && again != {}
    case Thin(at, TooMany) => at == last && Fresh(w, last) && n > w.expected
    case Thin(at, ServerProblem(what)) => at == last && Fresh(w, last) && n < w.expected && server == Some(what)
    case Thin(at, NoConnectFailure) =>
      at == last && Fresh(w, last) && n < w.expected && server == None &&
          w.attempt(last, Scored(w, last - 1).Keys).failures == []
    case Thin(_, Dropped(_)) => false
    case StillThin(cause) => last == RESUMES + 1 && DroppedAt(w, last) && cause == Dropped(NoteOf(w, last).line)
  }

  ghost predicate RunOf(w: World, r: Run, last: nat) {
    && 1 <= last <= RESUMES + 1
    && r.calls == CallsUpTo(w, last)
    && AllDropped(w, last)
    && (r.outcome.Passed? <==> CompletesAt(w, last))
    && (r.outcome.Passed? ==> r.outcome.results == Scored(w, last) && r.outcome.resumed == NotesUpTo(w, last - 1))
    && (r.outcome.SectionFailed? ==> FailedFor(w, last, r.outcome.reason) && (last > RESUMES || !DroppedAt(w, last)))
    && r.kept == EvidenceUpTo(w, if r.outcome.Passed? then last - 1 else last)
  }

  /** The run from attempt `n` on, on top of what the ones before it leave. */
  function RunOn(w: World, n: nat): Run
    requires 1 <= n <= RESUMES + 1
  {
    RunFrom(w, n, Scored(w, n - 1), NotesUpTo(w, n - 1), CallsUpTo(w, n - 1), EvidenceUpTo(w, n - 1))
  }

  lemma {:induction false} RunFromIs(w: World, n: nat) returns (last: nat)
    requires 1 <= n <= RESUMES + 1
    requires AllDropped(w, n)
    ensures RunOf(w, RunOn(w, n), last)
    decreases RESUMES + 1 - n
  {
    StepIs(w, n);
    hide *;
    if StepOf(w, n, Scored(w, n - 1)).Again? {
      Unroll(w, n);
      OneMoreDropped(w, n);
      last := RunFromIs(w, n + 1);
    } else {
      last := n;
      RunEnds(w, n);
    }
  }

  /** What attempt `n` does after the ones before it, in the terms of what has been scored. */
  ghost predicate StepAgrees(w: World, n: nat, st: Step)
    requires n > 0
  {
    match st
    case Finish(merged) => CompletesAt(w, n) && merged == Scored(w, n)
    case Fail(reason) => !CompletesAt(w, n) && (n > RESUMES || !DroppedAt(w, n)) && FailedFor(w, n, reason)
    case Again(merged, line) =>
      n <= RESUMES && DroppedAt(w, n) && merged == Scored(w, n) && NoteOf(w, n) == Resume(line, |merged|)
  }

  lemma StepIs(w: World, n: nat)
    requires 1 <= n <= RESUMES + 1
    ensures StepAgrees(w, n, StepOf(w, n, Scored(w, n - 1)))
    ensures EvidenceUpTo(w, n - 1) + EvidenceOf(w, n, Scored(w, n - 1)) ==
              EvidenceUpTo(w, if StepOf(w, n, Scored(w, n - 1)).Finish? then n - 1 else n)
  {
    StepVerdict(w, n);
    EvidenceIs(w, n);
  }

  lemma StepVerdict(w: World, n: nat)
    requires 1 <= n <= RESUMES + 1
    ensures StepAgrees(w, n, StepOf(w, n, Scored(w, n - 1)))
  {
    hide *;
    match StepOf(w, n, Scored(w, n - 1))
    case Finish(_) => Finishes(w, n);
    case Fail(_) => Fails(w, n);
    case Again(_, _) => Resumes(w, n);
  }

  lemma ScoredStep(w: World, n: nat)
    requires n > 0
    ensures GotBy(w, n) == w.attempt(n, Scored(w, n - 1).Keys).got && Scored(w, n) == Scored(w, n - 1) + GotBy(w, n)
  {
  }

  lemma Finishes(w: World, n: nat)
    requires 1 <= n <= RESUMES + 1 && StepOf(w, n, Scored(w, n - 1)).Finish?
    ensures StepAgrees(w, n, StepOf(w, n, Scored(w, n - 1)))
  {
    ScoredStep(w, n);
    hide Scored, GotBy, NoteOf, DroppedAt, FailedFor;
    Disjoint(GotBy(w, n).Keys, Scored(w, n - 1).Keys);
  }

  lemma Fails(w: World, n: nat)
    requires 1 <= n <= RESUMES + 1 && StepOf(w, n, Scored(w, n - 1)).Fail?
    ensures StepAgrees(w, n, StepOf(w, n, Scored(w, n - 1)))
  {
    hide *;
    ScoredStep(w, n);
    if GotBy(w, n).Keys * Scored(w, n - 1).Keys == {} {
      FailsThin(w, n);
    } else {
      FailsTwice(w, n);
    }
  }

  lemma FailsTwice(w: World, n: nat)
    requires 1 <= n <= RESUMES + 1 && GotBy(w, n).Keys * Scored(w, n - 1).Keys != {}
    ensures StepAgrees(w, n, StepOf(w, n, Scored(w, n - 1)))
  {
    ScoredStep(w, n);
    hide Scored, GotBy, ThinCause;
    ghost var c :| c in GotBy(w, n).Keys * Scored(w, n - 1).Keys;
    assert !Fresh(w, n);
  }

  lemma FailsThin(w: World, n: nat)
    requires 1 <= n <= RESUMES + 1 && StepOf(w, n, Scored(w, n - 1)).Fail?
    requires GotBy(w, n).Keys * Scored(w, n - 1).Keys == {}
    ensures StepAgrees(w, n, StepOf(w, n, Scored(w, n - 1)))
  {
    ScoredStep(w, n);
    hide Scored, GotBy;
    Disjoint(GotBy(w, n).Keys, Scored(w, n - 1).Keys);
  }

  lemma Resumes(w: World, n: nat)
    requires 1 <= n <= RESUMES + 1 && StepOf(w, n, Scored(w, n - 1)).Again?
    ensures StepAgrees(w, n, StepOf(w, n, Scored(w, n - 1)))
  {
    ScoredStep(w, n);
    hide Scored, GotBy, FailedFor, CompletesAt;
    Disjoint(GotBy(w, n).Keys, Scored(w, n - 1).Keys);
  }

  lemma EvidenceOne(w: World, n: nat, results: Verdicts)
    ensures var got := w.attempt(n, results.Keys).got;
            EvidenceOf(w, n, results) ==
              if StepOf(w, n, results).Finish? then [] else [Evidence(n, |got|, |results| + |got|)]
  {
    var got := w.attempt(n, results.Keys).got;
    if got.Keys * results.Keys == {} {
      Disjoint(got.Keys, results.Keys);
      MergedSize(results, got);
    }
  }

  lemma Disjoint(a: set<Case>, b: set<Case>)
    requires a * b == {}
    ensures b !! a
  {
    forall x | x in a
      ensures x !in b
    {
      assert x in b ==> x in a * b;
    }
  }

  lemma EvidenceIs(w: World, n: nat)
    requires n > 0
    ensures EvidenceUpTo(w, n - 1) + EvidenceOf(w, n, Scored(w, n - 1)) ==
              EvidenceUpTo(w, if StepOf(w, n, Scored(w, n - 1)).Finish? then n - 1 else n)
  {
    hide *;
    EvidenceOne(w, n, Scored(w, n - 1));
    EvidenceStep(w, n);
    NoneMore(EvidenceUpTo(w, n - 1));
  }

  lemma EvidenceStep(w: World, n: nat)
    requires n > 0
    ensures var got := w.attempt(n, Scored(w, n - 1).Keys).got;
            EvidenceUpTo(w, n) == EvidenceUpTo(w, n - 1) + [Evidence(n, |got|, |Scored(w, n - 1)| + |got|)]
  {
    hide Scored;
  }

  lemma NoneMore(s: seq<Evidence>)
    ensures s + [] == s
  {
  }

  lemma MergedSize(a: Verdicts, b: Verdicts)
    requires a.Keys !! b.Keys
    ensures |a + b| == |a| + |b|
  {
    assert (a + b).Keys == a.Keys + b.Keys;
    assert |a + b| == |(a + b).Keys| && |a| == |a.Keys| && |b| == |b.Keys|;
  }

  lemma Unroll(w: World, n: nat)
    requires 1 <= n <= RESUMES
    requires StepOf(w, n, Scored(w, n - 1)).Again?
    ensures RunOn(w, n) == RunOn(w, n + 1)
  {
    StepIs(w, n);
    hide StepOf, EvidenceOf, EvidenceUpTo, Scored, NotesUpTo, DroppedAt, CompletesAt;
  }

  lemma RunEnds(w: World, n: nat)
    requires 1 <= n <= RESUMES + 1
    requires AllDropped(w, n)
    requires !StepOf(w, n, Scored(w, n - 1)).Again?
    ensures RunOf(w, RunOn(w, n), n)
  {
    StepIs(w, n);
    hide StepOf, EvidenceOf, EvidenceUpTo, Scored, NotesUpTo, DroppedAt, CompletesAt, FailedFor, AllDropped;
  }

  lemma SectionIs(w: World) returns (last: nat)
    ensures RunOf(w, Section(w), last)
  {
    last := RunFromIs(w, 1);
  }

  lemma {:induction false} CallsShape(w: World, i: nat)
    ensures |CallsUpTo(w, i)| == i
    ensures forall k :: 0 <= k < i ==> CallsUpTo(w, i)[k] == Call(k + 1, Scored(w, k).Keys)
  {
    if i > 0 {
      CallsShape(w, i - 1);
    }
  }

  /** At most four attempts, each told exactly what was scored before it. */
  lemma AttemptsBounded(w: World)
    ensures var calls := Section(w).calls;
            && 1 <= |calls| <= RESUMES + 1
            && forall k :: 0 <= k < |calls| ==> calls[k] == Call(k + 1, Scored(w, k).Keys)
  {
    var last := SectionIs(w);
    CallsShape(w, last);
  }

  /** A section passes exactly when some attempt completes its count after nothing but dropped connects,
      scoring no case twice; it then holds every verdict any attempt scored. */
  lemma PassesExactly(w: World)
    ensures Section(w).outcome.Passed? <==> exists last :: PassesAt(w, last)
    ensures forall last | PassesAt(w, last) ::
      && Section(w).outcome.Passed?
      && Section(w).outcome.results == Scored(w, last)
      && |Section(w).calls| == last
  {
    var r := Section(w);
    var at := SectionIs(w);
    CallsShape(w, at);
    if r.outcome.Passed? {
      assert PassesAt(w, at);
    }
    forall last | PassesAt(w, last)
      ensures last == at
    {
      OneEnd(w, r, at, last);
    }
  }

  /** A section that is not believed says why, and truly: a case scored twice, more cases than the image
      runs, a server that is not well, no connect failure to blame, or the last attempt cut short too. And
      whatever the end, there is evidence of every attempt that did not complete the section. */
  lemma FailsForCause(w: World)
    ensures var r := Section(w);
            && (r.outcome.SectionFailed? ==> r.calls != [] && FailedFor(w, |r.calls|, r.outcome.reason))
            && r.kept == EvidenceUpTo(w, if r.outcome.Passed? then |r.calls| - 1 else |r.calls|)
            && (r.outcome.Passed? ==> r.outcome.resumed == NotesUpTo(w, |r.calls| - 1))
  {
    var last := SectionIs(w);
    CallsShape(w, last);
  }

  lemma NotBoth(w: World, i: nat)
    requires i > 0
    ensures !CompletesAt(w, i) || !DroppedAt(w, i)
  {
  }

  lemma OneEnd(w: World, r: Run, at: nat, last: nat)
    requires RunOf(w, r, at) && PassesAt(w, last)
    ensures last == at
  {
    NotBoth(w, last);
    NotBoth(w, at);
    hide DroppedAt, CompletesAt;
  }

  /** The merge on success: each case scored once, by one attempt, with that attempt's verdict. */
  lemma {:induction false} MergedOnce(w: World, last: nat, c: Case)
    requires AllFresh(w, last)
    ensures c in Scored(w, last) <==> exists i :: 1 <= i <= last && c in GotBy(w, i)
    ensures forall i | 1 <= i <= last && c in GotBy(w, i) ::
      c in Scored(w, last) && Scored(w, last)[c] == GotBy(w, i)[c]
    ensures forall i, j | 1 <= i < j <= last :: c !in GotBy(w, i) || c !in GotBy(w, j)
    decreases last
  {
    if last > 0 {
      MergedOnce(w, last - 1, c);
      LastScored(w, last, c);
      hide Scored, GotBy;
    }
  }

  lemma LastScored(w: World, i: nat, c: Case)
    requires i > 0 && Fresh(w, i)
    ensures c in Scored(w, i) <==> c in Scored(w, i - 1) || c in GotBy(w, i)
    ensures c in Scored(w, i - 1) ==> c !in GotBy(w, i) && Scored(w, i)[c] == Scored(w, i - 1)[c]
    ensures c in GotBy(w, i) ==> Scored(w, i)[c] == GotBy(w, i)[c]
  {
  }

  /** When every attempt scores only the section's own cases, a pass has scored the whole section. */
  lemma WholeSection(cases: set<Case>, w: World)
    requires w.expected == |cases| && forall n, done :: w.attempt(n, done).got.Keys <= cases
    requires Section(w).outcome.Passed?
    ensures Section(w).outcome.results.Keys == cases
  {
    var last := SectionIs(w);
    ScoredWithin(cases, w, last);
    SameSize(Scored(w, last).Keys, cases);
  }

  lemma {:induction false} ScoredWithin(cases: set<Case>, w: World, i: nat)
    requires forall n, done :: w.attempt(n, done).got.Keys <= cases
    ensures Scored(w, i).Keys <= cases
  {
    if i > 0 {
      ScoredWithin(cases, w, i - 1);
    }
  }

  lemma SameSize(a: set<Case>, b: set<Case>)
    requires a <= b && |a| == |b|
    ensures a == b
  {
    assert |b - a| == |b| - |a|;
    assert b - a == {};
  }

  // ----- a runner that honours the exclusions ------------------------------------------------

  /** It scores only cases of the section that it was not told to skip, and reports a failed connect
      whenever it leaves any out. */
  ghost predicate Honest(cases: set<Case>, w: World) {
    forall n, done ::
      && w.attempt(n, done).got.Keys <= cases - done
      && (w.attempt(n, done).got.Keys != cases - done ==> w.attempt(n, done).failures != [])
  }

  /** With a server that keeps answering and an honest runner, a section passes exactly when the
      attempts allowed reach every case between them. */
  lemma HonestPassesExactly(cases: set<Case>, w: World)
    requires w.expected == |cases| && Honest(cases, w) && forall n :: w.server(n) == None
    ensures Section(w).outcome.Passed? <==> Scored(w, RESUMES + 1).Keys == cases
  {
    var r := Section(w);
    var last := SectionIs(w);
    HonestScored(cases, w, last);
    HonestScored(cases, w, RESUMES + 1);
    if r.outcome.Passed? {
      SameSize(Scored(w, last).Keys, cases);
      NothingMore(cases, w, last, RESUMES + 1);
    } else {
      SubsetSmaller(Scored(w, last).Keys, cases);
      assert |Scored(w, last)| == |Scored(w, last).Keys|;
      assert Scored(w, last).Keys != cases;
      ShortIsDropped(cases, w, last);
    }
  }

  lemma SubsetSmaller(a: set<Case>, b: set<Case>)
    requires a <= b
    ensures |a| <= |b| && (|a| == |b| <==> a == b)
  {
    assert |b - a| == |b| - |a|;
    if |a| == |b| {
      SameSize(a, b);
    }
  }

  lemma {:induction false} HonestScored(cases: set<Case>, w: World, i: nat)
    requires Honest(cases, w)
    ensures Scored(w, i).Keys <= cases
    ensures i > 0 ==> Fresh(w, i)
  {
    if i > 0 {
      HonestScored(cases, w, i - 1);
      var done := Scored(w, i - 1).Keys;
      assert w.attempt(i, done).got.Keys <= cases - done;
    }
  }

  lemma ShortIsDropped(cases: set<Case>, w: World, i: nat)
    requires w.expected == |cases| && Honest(cases, w) && w.server(i) == None && i > 0
    requires Scored(w, i).Keys < cases
    ensures DroppedAt(w, i)
  {
    HonestScored(cases, w, i);
    var done := Scored(w, i - 1).Keys;
    assert w.attempt(i, done).got.Keys <= cases - done;
    assert Scored(w, i).Keys == done + w.attempt(i, done).got.Keys;
    assert done + (cases - done) == cases;
    SubsetSmaller(Scored(w, i).Keys, cases);
    assert |Scored(w, i)| == |Scored(w, i).Keys|;
  }

  lemma {:induction false} NothingMore(cases: set<Case>, w: World, i: nat, j: nat)
    requires Honest(cases, w) && i <= j && Scored(w, i).Keys == cases
    ensures Scored(w, j).Keys == cases
    decreases j - i
  {
    if i < j {
      NothingMore(cases, w, i, j - 1);
      HonestScored(cases, w, j);
    }
  }

  // ----- comparing with the pinned verdicts ----------------------------------------------------

  const PASSING: set<Behavior> := {"OK", "NON-STRICT", "INFORMATIONAL"}
  const FAILED: Behavior := "FAILED"

  datatype Defect =
    | NewFailure(c: Case, behavior: Behavior)
    | NeverRan(c: Case)
    | UnexpectedPass(c: Case, behavior: Behavior)
    | ChangedVerdict(c: Case, behavior: Behavior)

  /** `case.split(".")[0]`. */
  function SectionOf(c: Case): string {
    Before(c, '.')
  }

  /** A case outside the pinned set, by its verdict. */
  function CaseDefect(pinned: set<Case>, c: Case, behavior: Behavior): seq<Defect> {
    if c in pinned || behavior in PASSING then [] else [NewFailure(c, behavior)]
  }

  /** A pinned case, by its verdict if it has one. */
  function PinnedDefect(results: Verdicts, ran: Option<set<string>>, c: Case): seq<Defect> {
    if ran.Some? && SectionOf(c) !in ran.value then []
    else if c !in results then [NeverRan(c)]
    else if results[c] in PASSING then [UnexpectedPass(c, results[c])]
    else if results[c] != FAILED then [ChangedVerdict(c, results[c])]
    else []
  }

  /** What the comparison reports, case by case. */
  ghost predicate IsFinding(pinned: set<Case>, results: Verdicts, ran: Option<set<string>>, d: Defect) {
    || (exists c :: c in results && d in CaseDefect(pinned, c, results[c]))
    || (exists c :: c in pinned && d in PinnedDefect(results, ran, c))
  }

  function CaseDefects(pinned: set<Case>, results: Verdicts, cases: seq<Case>): seq<Defect> {
    if cases == [] then []
    else
      var c := cases[0];
      (if c in results then CaseDefect(pinned, c, results[c]) else []) + CaseDefects(pinned, results, cases[1..])
  }

  function PinnedDefects(results: Verdicts, ran: Option<set<string>>, cases: seq<Case>): seq<Defect> {
    if cases == [] then [] else PinnedDefect(results, ran, cases[0]) + PinnedDefects(results, ran, cases[1..])
  }

  /** All of it, in the order it is reported: the cases that ran, then the pinned ones, each sorted. */
  ghost function Findings(pinned: set<Case>, results: Verdicts, ran: Option<set<string>>): seq<Defect> {
    CaseDefects(pinned, results, Ascending(results.Keys)) + PinnedDefects(results, ran, Ascending(pinned))
  }

  lemma {:induction false} CaseDefectsAre(pinned: set<Case>, results: Verdicts, cases: seq<Case>, d: Defect)
    ensures d in CaseDefects(pinned, results, cases) <==>
              exists c :: c in cases && c in results && d in CaseDefect(pinned, c, results[c])
  {
    hide CaseDefect;
    if cases != [] {
      CaseDefectsAre(pinned, results, cases[1..], d);
      HeadOrRest(cases);
    }
  }

  lemma {:induction false} PinnedDefectsAre(results: Verdicts, ran: Option<set<string>>, cases: seq<Case>, d: Defect)
    ensures d in PinnedDefects(results, ran, cases) <==> exists c :: c in cases && d in PinnedDefect(results, ran, c)
  {
    hide PinnedDefect;
    if cases != [] {
      PinnedDefectsAre(results, ran, cases[1..], d);
      HeadOrRest(cases);
    }
  }

  lemma HeadOrRest(cases: seq<Case>)
    requires cases != []
    ensures forall c :: c in cases <==> c == cases[0] || c in cases[1..]
  {
  }

  lemma FindingsAre(pinned: set<Case>, results: Verdicts, ran: Option<set<string>>, d: Defect)
    ensures d in Findings(pinned, results, ran) <==> IsFinding(pinned, results, ran, d)
  {
    CaseDefectsAre(pinned, results, Ascending(results.Keys), d);
    PinnedDefectsAre(results, ran, Ascending(pinned), d);
    hide CaseDefects, PinnedDefects, CaseDefect, PinnedDefect, Ascending;
    forall c
      ensures c in Ascending(results.Keys) <==> c in results
      ensures c in Ascending(pinned) <==> c in pinned
    {
      AscendingMembers(results.Keys, c);
      AscendingMembers(pinned, c);
    }
  }

  method Compare(pinned: set<Case>, results: Verdicts, ran: Option<set<string>>) returns (errors: seq<Defect>)
    ensures errors == Findings(pinned, results, ran)
    ensures forall d :: d in errors <==> IsFinding(pinned, results, ran, d)
  {
    var ofCases := CompareCases(pinned, results);
    var ofPinned := ComparePinned(pinned, results, ran);
    errors := ofCases + ofPinned;
    hide IsFinding;
    forall d
      ensures d in errors <==> IsFinding(pinned, results, ran, d)
    {
      FindingsAre(pinned, results, ran, d);
    }
  }

  method CompareCases(pinned: set<Case>, results: Verdicts) returns (errors: seq<Defect>)
    ensures errors == CaseDefects(pinned, results, Ascending(results.Keys))
  {
    hide CaseDefect, Ascending;
    errors := [];
    var todo := results.Keys;
    while todo != {}
      invariant todo <= results.Keys
      invariant CaseDefects(pinned, results, Ascending(results.Keys)) ==
                errors + CaseDefects(pinned, results, Ascending(todo))
      decreases |todo|
    {
      hide CaseDefects, IsLeast;
      var c := Least(todo);
      CasesStep(pinned, results, todo, c);
      DefectsAssoc(errors, CaseDefect(pinned, c, results[c]), CaseDefects(pinned, results, Ascending(todo - {c})));
      errors := errors + CaseDefect(pinned, c, results[c]);
      todo := todo - {c};
    }
    NoCases(pinned, results, errors);
  }

  lemma CasesStep(pinned: set<Case>, results: Verdicts, todo: set<Case>, c: Case)
    requires IsLeast(todo, c) && todo <= results.Keys
    ensures c in todo && c in results
    ensures CaseDefects(pinned, results, Ascending(todo)) ==
              CaseDefect(pinned, c, results[c]) + CaseDefects(pinned, results, Ascending(todo - {c}))
  {
    AscendingStep(todo, c);
    hide Ascending, CaseDefect;
    var rest := Ascending(todo - {c});
    assert ([c] + rest)[0] == c && ([c] + rest)[1..] == rest;
  }

  lemma NoCases(pinned: set<Case>, results: Verdicts, errors: seq<Defect>)
    ensures errors + CaseDefects(pinned, results, Ascending({})) == errors
  {
  }

  lemma DefectsAssoc(a: seq<Defect>, b: seq<Defect>, c: seq<Defect>)
    ensures a + (b + c) == (a + b) + c
  {
  }

  method ComparePinned(pinned: set<Case>, results: Verdicts, ran: Option<set<string>>) returns (errors: seq<Defect>)
    ensures errors == PinnedDefects(results, ran, Ascending(pinned))
  {
    hide PinnedDefect, Ascending;
    errors := [];
    var todo := pinned;
    while todo != {}
      invariant todo <= pinned
      invariant PinnedDefects(results, ran, Ascending(pinned)) == errors + PinnedDefects(results, ran, Ascending(todo))
      decreases |todo|
    {
      hide PinnedDefects, IsLeast;
      var c := Least(todo);
      PinnedStep(results, ran, todo, c);
      DefectsAssoc(errors, PinnedDefect(results, ran, c), PinnedDefects(results, ran, Ascending(todo - {c})));
      errors := errors + PinnedDefect(results, ran, c);
      todo := todo - {c};
    }
    NoPinned(results, ran, errors);
  }

  lemma PinnedStep(results: Verdicts, ran: Option<set<string>>, todo: set<Case>, c: Case)
    requires IsLeast(todo, c)
    ensures c in todo
    ensures PinnedDefects(results, ran, Ascending(todo)) ==
              PinnedDefect(results, ran, c) + PinnedDefects(results, ran, Ascending(todo - {c}))
  {
    AscendingStep(todo, c);
    hide Ascending, PinnedDefect;
    var rest := Ascending(todo - {c});
    assert ([c] + rest)[0] == c && ([c] + rest)[1..] == rest;
  }

  lemma NoPinned(results: Verdicts, ran: Option<set<string>>, errors: seq<Defect>)
    ensures errors + PinnedDefects(results, ran, Ascending({})) == errors
  {
  }

  /** The comparison is empty exactly when the failures are the pinned ones: nothing outside the pinned
      set failed, and every pinned case of a section that ran scored FAILED. */
  predicate BaselineHolds(pinned: set<Case>, results: Verdicts, ran: Option<set<string>>) {
    && (forall c :: c in results && c !in pinned ==> results[c] in PASSING)
    && (forall c :: c in pinned && (ran == None || SectionOf(c) in ran.value) ==> c in results && results[c] == FAILED)
  }

  lemma FailedIsNoPass()
    ensures FAILED !in PASSING
  {
    assert |FAILED| == 6 && |"OK"| == 2 && |"NON-STRICT"| == 10 && |"INFORMATIONAL"| == 13;
  }

  method CompareExactly(pinned: set<Case>, results: Verdicts, ran: Option<set<string>>) returns (errors: seq<Defect>)
    ensures errors == [] <==> BaselineHolds(pinned, results, ran)
    ensures errors == Findings(pinned, results, ran)
    ensures forall d :: d in errors <==> IsFinding(pinned, results, ran, d)
  {
    errors := Compare(pinned, results, ran);
    hide IsFinding, BaselineHolds, Findings;
    SomeMember(errors);
    if BaselineHolds(pinned, results, ran) {
      forall d
        ensures !IsFinding(pinned, results, ran, d)
      {
        NothingFound(pinned, results, ran, d);
      }
    } else {
      ghost var d := SomethingFound(pinned, results, ran);
    }
  }

  lemma NothingFound(pinned: set<Case>, results: Verdicts, ran: Option<set<string>>, d: Defect)
    requires BaselineHolds(pinned, results, ran)
    ensures !IsFinding(pinned, results, ran, d)
  {
    FailedIsNoPass();
    hide PASSING;
  }

  lemma SomethingFound(pinned: set<Case>, results: Verdicts, ran: Option<set<string>>) returns (d: Defect)
    requires !BaselineHolds(pinned, results, ran)
    ensures IsFinding(pinned, results, ran, d)
  {
    hide PASSING;
    if c :| c in results && c !in pinned && results[c] !in PASSING {
      d := NewFailure(c, results[c]);
      assert d in CaseDefect(pinned, c, results[c]);
    } else {
      var c :| c in pinned && (ran == None || SectionOf(c) in ran.value) && !(c in results && results[c] == FAILED);
      d := PinnedFound(results, ran, c);
    }
  }

  lemma PinnedFound(results: Verdicts, ran: Option<set<string>>, c: Case) returns (d: Defect)
    requires (ran == None || SectionOf(c) in ran.value) && !(c in results && results[c] == FAILED)
    ensures d in PinnedDefect(results, ran, c)
  {
    hide PASSING;
    assert |PinnedDefect(results, ran, c)| == 1;
    d := PinnedDefect(results, ran, c)[0];
  }

  // ----- a whole run ---------------------------------------------------------------------------

  datatype SectionRun = SectionRun(name: string, cases: set<Case>, w: World)

  /** The verdicts of the first `i` sections, each section's on top of the ones before. */
  function Merged(sections: seq<SectionRun>, i: nat): Verdicts
    requires i <= |sections|
  {
    if i == 0 then map[]
    else
      Merged(sections, i - 1) + ResultsOf(sections[i - 1])
  }

  function Names(sections: seq<SectionRun>): set<string> {
    set i | 0 <= i < |sections| :: sections[i].name
  }

  predicate AllPass(sections: seq<SectionRun>) {
    forall i :: 0 <= i < |sections| ==> Section(sections[i].w).outcome.Passed?
  }

  /** The findings are those of the merged verdicts, and there are none exactly when the baseline holds. */
  ghost predicate Judged(pinned: set<Case>, sections: seq<SectionRun>, errors: seq<Defect>) {
    var results, ran := Merged(sections, |sections|), Some(Names(sections));
    && errors == Findings(pinned, results, ran)
    && (errors == [] <==> BaselineHolds(pinned, results, ran))
  }

  /** The run as `main` drives it: section after section, the verdicts merged, then the comparison. It
      fails at the first section that cannot be believed. */
  method RunAll(pinned: set<Case>, sections: seq<SectionRun>) returns (errors: Option<seq<Defect>>)
    ensures errors.Some? <==> AllPass(sections)
    ensures errors.Some? ==> Judged(pinned, sections, errors.value)
  {
    var results: Verdicts := map[];
    hide Section, BaselineHolds, IsFinding, Names;
    for i := 0 to |sections|
      invariant forall k :: 0 <= k < i ==> Section(sections[k].w).outcome.Passed?
      invariant results == Merged(sections, i)
    {
      var r := DriveSection(sections[i].w);
      if r.outcome.SectionFailed? {
        return None;
      }
      results := results + r.outcome.results;
    }
    var found := CompareExactly(pinned, results, Some(Names(sections)));
    return Some(found);
  }

  /** Sections are about cases of their own. */
  ghost predicate Apart(sections: seq<SectionRun>) {
    && (forall i :: 0 <= i < |sections| ==>
          forall n, done :: sections[i].w.attempt(n, done).got.Keys <= sections[i].cases)
    && (forall i, j :: 0 <= i < j < |sections| ==> sections[i].cases !! sections[j].cases)
  }

  lemma PassedWithin(sections: seq<SectionRun>, i: nat)
    requires Apart(sections) && i < |sections| && Section(sections[i].w).outcome.Passed?
    ensures Section(sections[i].w).outcome.results.Keys <= sections[i].cases
  {
    var last := SectionIs(sections[i].w);
    ScoredWithin(sections[i].cases, sections[i].w, last);
  }

  function ResultsOf(s: SectionRun): Verdicts {
    var o := Section(s.w).outcome;
    if o.Passed? then o.results else map[]
  }

  /** Merging keeps every section's verdicts. */
  lemma {:induction false} MergedKeeps(sections: seq<SectionRun>, i: nat, k: nat, c: Case)
    requires k < i <= |sections| && c in ResultsOf(sections[k])
    requires forall j :: k < j < i ==> ResultsOf(sections[j]).Keys !! ResultsOf(sections[k]).Keys
    ensures c in Merged(sections, i) && Merged(sections, i)[c] == ResultsOf(sections[k])[c]
    decreases i
  {
    hide ResultsOf;
    if k < i - 1 {
      MergedKeeps(sections, i - 1, k, c);
      assert ResultsOf(sections[i - 1]).Keys !! ResultsOf(sections[k]).Keys;
    }
  }

  lemma ResultsApart(sections: seq<SectionRun>, k: nat, j: nat)
    requires Apart(sections) && k < j < |sections|
    requires Section(sections[k].w).outcome.Passed? && Section(sections[j].w).outcome.Passed?
    ensures ResultsOf(sections[j]).Keys !! ResultsOf(sections[k]).Keys
  {
    hide Section;
    PassedWithin(sections, k);
    PassedWithin(sections, j);
    assert sections[k].cases !! sections[j].cases;
  }

  /** No failure is hidden, by a resume or by a merge: when every section passes and the comparison finds
      nothing, whatever any attempt of any section scored outside the pinned set was a pass, and every
      pinned case of a section that ran was scored FAILED. */
  lemma NothingHidden(pinned: set<Case>, sections: seq<SectionRun>, k: nat, n: nat, c: Case)
    requires Apart(sections) && k < |sections|
    requires AllPass(sections) && Judged(pinned, sections, [])
    requires 1 <= n <= |Section(sections[k].w).calls| && c in GotBy(sections[k].w, n)
    ensures var verdict := GotBy(sections[k].w, n)[c];
            verdict in PASSING || (c in pinned && (sections[k].name == SectionOf(c) ==> verdict == FAILED))
  {
    var w := sections[k].w;
    hide Section, Merged;
    var last := SectionIs(w);
    CallsShape(w, last);
    EachDisjoint(w, last);
    MergedOnce(w, last, c);
    forall j | k < j < |sections|
      ensures ResultsOf(sections[j]).Keys !! ResultsOf(sections[k]).Keys
    {
      ResultsApart(sections, k, j);
    }
    MergedKeeps(sections, |sections|, k, c);
    assert sections[k].name in Names(sections);
  }

  lemma EachDisjoint(w: World, last: nat)
    requires RunOf(w, Section(w), last) && Section(w).outcome.Passed?
    ensures AllFresh(w, last)
  {
    hide Section, Scored, Fresh;
    forall i | 1 <= i <= last
      ensures Fresh(w, i)
    {
      assert i < last ==> DroppedAt(w, i);
    }
  }

  lemma SomeMember<T>(s: seq<T>)
    ensures s == [] || exists x :: x in s
  {
    if s != [] {
      assert s[0] in s;
    }
  }
}
