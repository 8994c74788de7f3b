/** What `compare` of scripts/autobahn_runner.py reports, as rules on single cases and in its order, and how often a
    section is run. */
module VerdictRules {
  import opened Text
  import opened TextMeans
  import opened Ordering
  import opened AutobahnRunner

  predicate Passes(behavior: Behavior) {
    behavior == "OK" || behavior == "NON-STRICT" || behavior == "INFORMATIONAL"
  }

  /** The case's number begins with the section's, up to its first dot. */
  ghost predicate InSection(c: Case, section: string) {
    '.' !in section && (c == section || exists later :: c == section + ("." + later))
  }

  lemma SectionExactly(c: Case, section: string)
    ensures SectionOf(c) == section <==> InSection(c, section)
  {
    if SectionOf(c) == section && section != c {
      assert c == section + ("." + c[|section| + 1..]);
    }
    if InSection(c, section) {
      if c == section {
        BeforeAll(c, '.');
      } else {
        var later :| c == section + ("." + later);
        BeforeAfter(section, '.', later);
      }
    }
  }

  /** The pinned case is asked about: no sections are named, or its own is. */
  ghost predicate Considered(ran: Option<set<string>>, c: Case) {
    ran.Some? ==> exists section :: section in ran.value && InSection(c, section)
  }

  /** When there is a defect to report of a case, and which. */
  ghost predicate Rule(pinned: set<Case>, results: Verdicts, ran: Option<set<string>>, d: Defect) {
    match d
    case NewFailure(c, behavior) => c in results && results[c] == behavior && c !in pinned && !Passes(behavior)
    case NeverRan(c) => c in pinned && Considered(ran, c) && c !in results
    case UnexpectedPass(c, behavior) =>
      c in pinned && Considered(ran, c) && c in results && results[c] == behavior && Passes(behavior)
    case ChangedVerdict(c, behavior) =>
      && c in pinned && Considered(ran, c) && c in results && results[c] == behavior
      && !Passes(behavior) && behavior != "FAILED"
  }

  lemma PassingAre(behavior: Behavior)
    ensures behavior in PASSING <==> Passes(behavior)
  {
  }

  lemma ConsideredIs(ran: Option<set<string>>, c: Case)
    ensures Considered(ran, c) <==> (ran.Some? ==> SectionOf(c) in ran.value)
  {
    hide InSection;
    if ran.Some? {
      forall section
        ensures SectionOf(c) == section <==> InSection(c, section)
      {
        SectionExactly(c, section);
      }
    }
  }

  lemma FindingRule(pinned: set<Case>, results: Verdicts, ran: Option<set<string>>, d: Defect)
    ensures IsFinding(pinned, results, ran, d) <==> Rule(pinned, results, ran, d)
  {
    CaseRule(pinned, results, d);
    PinnedRule(pinned, results, ran, d);
    hide Rule, CaseDefect, PinnedDefect;
  }

  lemma CaseRule(pinned: set<Case>, results: Verdicts, d: Defect)
    ensures (exists c :: c in results && d in CaseDefect(pinned, c, results[c])) <==>
              d.NewFailure? && Rule(pinned, results, None, d)
    ensures forall ran :: d.NewFailure? ==> (Rule(pinned, results, ran, d) <==> Rule(pinned, results, None, d))
  {
    hide PASSING, Passes;
    forall behavior
      ensures behavior in PASSING <==> Passes(behavior)
    {
      PassingAre(behavior);
    }
    if d.NewFailure? && Rule(pinned, results, None, d) {
      assert d in CaseDefect(pinned, d.c, results[d.c]);
    }
  }

  lemma PinnedRule(pinned: set<Case>, results: Verdicts, ran: Option<set<string>>, d: Defect)
    ensures (exists c :: c in pinned && d in PinnedDefect(results, ran, c)) <==>
              !d.NewFailure? && Rule(pinned, results, ran, d)
  {
    hide PASSING, Passes, Considered;
    forall behavior
      ensures behavior in PASSING <==> Passes(behavior)
    {
      PassingAre(behavior);
    }
    forall c
      ensures Considered(ran, c) <==> (ran.Some? ==> SectionOf(c) in ran.value)
    {
      ConsideredIs(ran, c);
    }
    if !d.NewFailure? && Rule(pinned, results, ran, d) {
      assert d in PinnedDefect(results, ran, d.c);
    }
  }

  // ----- the order of the report ---------------------------------------------------------------------

  ghost predicate Rising(defects: seq<Defect>) {
    forall i, j :: 0 <= i < j < |defects| ==> Less(defects[i].c, defects[j].c)
  }

  /** New failures first, then what is said of pinned cases, each in the order of the cases. */
  ghost predicate Ordered(defects: seq<Defect>, k: nat) {
    && k <= |defects| && Rising(defects[..k]) && Rising(defects[k..])
    && (forall i :: 0 <= i < k ==> defects[i].NewFailure?)
    && forall i :: k <= i < |defects| ==> !defects[i].NewFailure?
  }

  predicate Increasing(cases: seq<Case>) {
    forall i, j :: 0 <= i < j < |cases| ==> Less(cases[i], cases[j])
  }

  lemma {:induction false} AscendingIncreases(s: set<Case>)
    ensures Increasing(Ascending(s))
    decreases |s|
  {
    hide Less;
    if s != {} {
      var m := Ascending(s)[0];
      LeastFirst(s);
      AscendingIncreases(s - {m});
      var rest := Ascending(s - {m});
      forall j | 0 <= j < |rest|
        ensures Less(m, rest[j])
      {
        AscendingMembers(s - {m}, rest[j]);
        LessTotal(m, rest[j]);
      }
    }
  }

  lemma LeastFirst(s: set<Case>)
    requires s != {}
    ensures Ascending(s) != [] && Ascending(s)[0] in s
    ensures Ascending(s) == [Ascending(s)[0]] + Ascending(s - {Ascending(s)[0]})
    ensures forall x :: x in s ==> !Less(x, Ascending(s)[0])
  {
  }

  lemma {:induction false} CasesRise(pinned: set<Case>, results: Verdicts, cases: seq<Case>)
    requires Increasing(cases)
    ensures var ds := CaseDefects(pinned, results, cases);
            Rising(ds) && forall i :: 0 <= i < |ds| ==> ds[i].NewFailure? && ds[i].c in cases
  {
    hide Less;
    if cases != [] {
      CasesRise(pinned, results, cases[1..]);
      assert forall c :: c in cases[1..] ==> Less(cases[0], c);
    }
  }

  lemma {:induction false} PinnedRise(results: Verdicts, ran: Option<set<string>>, cases: seq<Case>)
    requires Increasing(cases)
    ensures var ds := PinnedDefects(results, ran, cases);
            Rising(ds) && forall i :: 0 <= i < |ds| ==> !ds[i].NewFailure? && ds[i].c in cases
  {
    hide Less, SectionOf;
    if cases != [] {
      PinnedRise(results, ran, cases[1..]);
      assert forall c :: c in cases[1..] ==> Less(cases[0], c);
    }
  }

  /** Exactly the defects the rules give, in the order they are reported in. */
  method CompareByRules(pinned: set<Case>, results: Verdicts, ran: Option<set<string>>)
    returns (errors: seq<Defect>, ghost k: nat)
    ensures forall d :: d in errors <==> Rule(pinned, results, ran, d)
    ensures Ordered(errors, k)
    ensures errors == [] <==> forall d :: !Rule(pinned, results, ran, d)
  {
    errors := Compare(pinned, results, ran);
    hide *;
    forall d
      ensures d in errors <==> Rule(pinned, results, ran, d)
    {
      FindingsAre(pinned, results, ran, d);
      FindingRule(pinned, results, ran, d);
    }
    SomeMember(errors);
    k := FindingsOrdered(pinned, results, ran);
  }

  lemma FindingsOrdered(pinned: set<Case>, results: Verdicts, ran: Option<set<string>>) returns (k: nat)
    ensures Ordered(Findings(pinned, results, ran), k)
  {
    hide Less, Ascending, CaseDefects, PinnedDefects, Increasing;
    AscendingIncreases(results.Keys);
    AscendingIncreases(pinned);
    CasesRise(pinned, results, Ascending(results.Keys));
    PinnedRise(results, ran, Ascending(pinned));
    var front := CaseDefects(pinned, results, Ascending(results.Keys));
    var back := PinnedDefects(results, ran, Ascending(pinned));
    k := |front|;
    assert (front + back)[..k] == front && (front + back)[k..] == back;
  }

  // ----- how often a section is run --------------------------------------------------------------------

  /** A section is run four times at most, and is still thin only after the fourth. */
  lemma FourAttempts(w: World)
    ensures |Section(w).calls| <= 4
    ensures Section(w).outcome.SectionFailed? && Section(w).outcome.reason.StillThin? ==> |Section(w).calls| == 4
    ensures AllDropped(w, 4) && CompletesAt(w, 4) ==> Section(w).outcome.Passed?
  {
    hide Section, AllDropped, CompletesAt;
    AttemptsBounded(w);
    FailsForCause(w);
    PassesExactly(w);
    assert AllDropped(w, 4) && CompletesAt(w, 4) ==> PassesAt(w, 4);
  }
}
