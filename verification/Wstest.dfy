/** The model of wstest that scripts/autobahn_runner.py drives its own section loop with, and which
    scripts of dropped connects that loop gets through. */
module WstestModel {
  import opened Text
  import opened AutobahnRunner

  /** How one attempt ends. */
  datatype Turn = All | Drop(k: nat) | Stop(k: nat) | Ignore | Skip | Extra

  const DROPPED := "Connection to ws://host.docker.internal:9301 failed (User timeout caused connection failure.)"
  const OUTSIDE: Case := "6.9.9"

  /** A scenario: the section's cases in order, what each attempt does, and the verdict of each case in it. */
  datatype Scenario = Scenario(cases: seq<Case>, script: nat -> Turn, verdicts: (nat, Case) -> Behavior)

  /** The cases not excluded, in order. */
  function Todo(cases: seq<Case>, done: set<Case>): seq<Case> {
    if cases == [] then []
    else if cases[0] in done then Todo(cases[1..], done)
    else [cases[0]] + Todo(cases[1..], done)
  }

  function Take(s: seq<Case>, k: nat): seq<Case> {
    if k <= |s| then s[..k] else s
  }

  /** The cases an attempt runs. */
  function Ran(cases: seq<Case>, turn: Turn, done: set<Case>): seq<Case> {
    var todo := Todo(cases, done);
    match turn
    case All => todo
    case Drop(k) => Take(todo, k)
    case Stop(k) => Take(todo, k)
    case Ignore => cases
    case Skip => if todo == [] then [] else todo[1..]
    case Extra => todo + [OUTSIDE]
  }

  function Score(n: nat, ran: seq<Case>, verdicts: (nat, Case) -> Behavior): Verdicts {
    map c | c in ran :: verdicts(n, c)
  }

  function RunnerOf(s: Scenario): Runner {
    (n: nat, done: set<Case>) =>
      Attempt(Score(n, Ran(s.cases, s.script(n), done), s.verdicts), if s.script(n).Drop? then [DROPPED] else [])
  }

  /** The section's loop over this model, with the server alive throughout. */
  function WorldOf(s: Scenario): World {
    World(|s.cases|, RunnerOf(s), _ => None)
  }

  function Members(s: seq<Case>): set<Case> {
    set c | c in s
  }

  predicate Distinct(s: seq<Case>) {
    forall i, j :: 0 <= i < j < |s| ==> s[i] != s[j]
  }

  lemma {:induction false} DistinctSize(s: seq<Case>)
    requires Distinct(s)
    ensures |Members(s)| == |s|
  {
    if s != [] {
      DistinctSize(s[1..]);
      assert Members(s) == {s[0]} + Members(s[1..]) && s[0] !in s[1..];
    }
  }

  /** What is left to run is what is not excluded, each case once. */
  lemma {:induction false} TodoIs(cases: seq<Case>, done: set<Case>)
    requires Distinct(cases)
    ensures Members(Todo(cases, done)) == Members(cases) - done
    ensures Distinct(Todo(cases, done))
  {
    if cases != [] {
      TodoIs(cases[1..], done);
      var rest := Todo(cases[1..], done);
      assert Members(cases) == {cases[0]} + Members(cases[1..]) && cases[0] !in cases[1..];
      assert cases[0] !in Members(rest);
      assert Members([cases[0]] + rest) == {cases[0]} + Members(rest);
    }
  }

  lemma TakeSome(s: seq<Case>, k: nat)
    requires Distinct(s)
    ensures Distinct(Take(s, k)) && Members(Take(s, k)) <= Members(s)
    ensures |Take(s, k)| == if k <= |s| then k else |s|
  {
  }

  // ----- scripts of dropped connects -----------------------------------------------------------------

  /** Every attempt runs all it is given, or some of it and then cannot connect. */
  ghost predicate OnlyDrops(s: Scenario) {
    forall n :: s.script(n).All? || s.script(n).Drop?
  }

  /** How many of the cases left a turn runs. */
  function Runs(turn: Turn, left: nat): nat {
    if turn.Drop? && turn.k <= left then turn.k else left
  }

  lemma DropsAreHonest(s: Scenario)
    requires Distinct(s.cases) && OnlyDrops(s)
    ensures Honest(Members(s.cases), WorldOf(s))
  {
    forall n: nat, done: set<Case>
      ensures var a := WorldOf(s).attempt(n, done);
              a.got.Keys <= Members(s.cases) - done && (a.got.Keys != Members(s.cases) - done ==> a.failures != [])
    {
      RanIs(s, n, done);
    }
  }

  lemma RanIs(s: Scenario, n: nat, done: set<Case>)
    requires Distinct(s.cases) && OnlyDrops(s)
    ensures var got, left := WorldOf(s).attempt(n, done).got.Keys, Members(s.cases) - done;
            && got <= left && (s.script(n).All? ==> got == left)
            && |got| == Runs(s.script(n), |left|)
  {
    var turn, todo := s.script(n), Todo(s.cases, done);
    TodoIs(s.cases, done);
    DistinctSize(todo);
    assert turn.All? || turn.Drop?;
    if turn.Drop? {
      TakeSome(todo, turn.k);
    }
    var ran := Ran(s.cases, turn, done);
    DistinctSize(ran);
    assert WorldOf(s).attempt(n, done).got.Keys == Members(ran);
  }

  /** How many cases the first `i` attempts can reach between them, each counted as often as it says. */
  function Reach(s: Scenario, i: nat): nat {
    if i == 0 then 0 else Reach(s, i - 1) + match s.script(i) case Drop(k) => k case _ => |s.cases|
  }

  /** The section's progress is the sum of the turns, up to the whole section: nothing is run twice and
      nothing reached is lost. */
  lemma {:induction false} ProgressIs(s: Scenario, i: nat)
    requires Distinct(s.cases) && OnlyDrops(s)
    ensures |Scored(WorldOf(s), i)| == if Reach(s, i) < |s.cases| then Reach(s, i) else |s.cases|
  {
    hide Scored;
    if i > 0 {
      ProgressIs(s, i - 1);
      ProgressStep(s, i);
    } else {
      NothingScored(WorldOf(s));
    }
  }

  lemma NothingScored(w: World)
    ensures |Scored(w, 0)| == 0
  {
  }

  lemma ProgressStep(s: Scenario, i: nat)
    requires Distinct(s.cases) && OnlyDrops(s) && i > 0
    ensures |s.cases| >= |Scored(WorldOf(s), i - 1)|
    ensures |Scored(WorldOf(s), i)| ==
              |Scored(WorldOf(s), i - 1)| + Runs(s.script(i), |s.cases| - |Scored(WorldOf(s), i - 1)|)
  {
    hide *;
    var before := Scored(WorldOf(s), i - 1);
    var got := WorldOf(s).attempt(i, before.Keys).got;
    DistinctSize(s.cases);
    TurnIs(s, i, before, got);
    OneTurn(Members(s.cases), before, got, s.script(i));
    AfterTurn(WorldOf(s), i);
  }

  lemma TurnIs(s: Scenario, i: nat, before: Verdicts, got: Verdicts)
    requires Distinct(s.cases) && OnlyDrops(s) && i > 0
    requires before == Scored(WorldOf(s), i - 1) && got == WorldOf(s).attempt(i, before.Keys).got
    ensures before.Keys <= Members(s.cases) && got.Keys <= Members(s.cases) - before.Keys
    ensures |got.Keys| == Runs(s.script(i), |Members(s.cases) - before.Keys|)
  {
    hide *;
    DropsAreHonest(s);
    HonestScored(Members(s.cases), WorldOf(s), i - 1);
    RanIs(s, i, before.Keys);
  }

  lemma AfterTurn(w: World, i: nat)
    requires i > 0
    ensures |Scored(w, i)| == |Scored(w, i - 1) + w.attempt(i, Scored(w, i - 1).Keys).got|
  {
    ScoredStep(w, i);
  }

  /** What one turn adds: as many of the cases left as it reaches, or all of them. */
  lemma OneTurn(all: set<Case>, before: Verdicts, got: Verdicts, turn: Turn)
    requires before.Keys <= all && got.Keys <= all - before.Keys && |got.Keys| == Runs(turn, |all - before.Keys|)
    ensures |all| >= |before| && |before + got| == |before| + Runs(turn, |all| - |before|)
  {
    Sizes(all, before, got);
  }

  lemma Sizes(all: set<Case>, before: Verdicts, got: Verdicts)
    requires before.Keys <= all && got.Keys <= all - before.Keys
    ensures |before + got| == |before| + |got.Keys| && |all - before.Keys| == |all| - |before|
  {
    MergedSize(before, got);
    SubsetLeft(all, before.Keys);
    assert |before| == |before.Keys| && |got| == |got.Keys|;
  }

  lemma SubsetLeft(a: set<Case>, b: set<Case>)
    requires b <= a
    ensures |a - b| == |a| - |b|
  {
  }

  /** The resume protocol on dropped connects: the section passes exactly when the four attempts allowed
      reach as many cases as it has. */
  lemma DropsPassExactly(s: Scenario)
    requires Distinct(s.cases) && OnlyDrops(s)
    ensures Section(WorldOf(s)).outcome.Passed? <==> Reach(s, RESUMES + 1) >= |s.cases|
  {
    var w := WorldOf(s);
    DropsAreHonest(s);
    DistinctSize(s.cases);
    HonestPassesExactly(Members(s.cases), w);
    ProgressIs(s, RESUMES + 1);
    HonestScored(Members(s.cases), w, RESUMES + 1);
    SubsetSmaller(Scored(w, RESUMES + 1).Keys, Members(s.cases));
  }

  /** A runner that ignores the exclusions once something has been scored ends in a refusal. */
  lemma IgnoredExclusionsRefused(s: Scenario, n: nat)
    requires Distinct(s.cases) && 1 <= n <= RESUMES + 1 && s.script(n).Ignore?
    requires AllDropped(WorldOf(s), n) && Scored(WorldOf(s), n - 1) != map[]
    requires Scored(WorldOf(s), n - 1).Keys <= Members(s.cases)
    ensures var o := Section(WorldOf(s)).outcome; o.SectionFailed? && o.reason.ScoredTwice? && o.reason.n == n
  {
    var w := WorldOf(s);
    var last := SectionIs(w);
    TwiceScored(s, n);
    EndsAt(w, last, n);
    hide *;
    ReasonIs(w, n, Section(w));
  }

  lemma TwiceScored(s: Scenario, n: nat)
    requires n > 0 && s.script(n).Ignore? && Scored(WorldOf(s), n - 1) != map[]
    requires Scored(WorldOf(s), n - 1).Keys <= Members(s.cases)
    ensures !Fresh(WorldOf(s), n)
  {
    var w := WorldOf(s);
    hide Scored;
    var c :| c in Scored(w, n - 1);
    assert c in s.cases && c in GotBy(w, n);
  }

  /** A run of dropped connects goes on to the attempt behind them, and no further than one that is none. */
  lemma EndsAt(w: World, last: nat, n: nat)
    requires RunOf(w, Section(w), last)
    requires 1 <= n <= RESUMES + 1 && AllDropped(w, n) && !Fresh(w, n)
    ensures last == n
  {
    hide Section, Scored, Fresh, FailedFor;
    NotDropped(w, n);
    NotBoth(w, last);
    hide DroppedAt, CompletesAt;
  }

  lemma NotDropped(w: World, n: nat)
    requires n > 0 && !Fresh(w, n)
    ensures !DroppedAt(w, n)
  {
  }

  lemma ReasonIs(w: World, n: nat, r: Run)
    requires n > 0 && RunOf(w, r, n) && !Fresh(w, n)
    ensures r.outcome.SectionFailed? && r.outcome.reason.ScoredTwice? && r.outcome.reason.n == n
  {
    hide Scored, Fresh, GotBy, Section;
    assert !CompletesAt(w, n) && !DroppedAt(w, n);
  }
}
