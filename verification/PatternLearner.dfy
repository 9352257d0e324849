/** Learning over all domains and target outcomes: the checks, the domain filter, the concatenation and the final
    sort. */
module PatternLearner {
  import opened Collections
  import opened TemporalEvents
  import CandidateTally
  import EvidenceCollection
  import opened PatternScorer
  import HypothesisTheorems

  // ---------- Parameters ----------

  datatype ParamError = VersionBlank | WindowNotPositive | DecayNotPositive | RateNotPositive | SupportNotPositive
                      | StepsNotPositive | SpanNegative | GapNegative | CandidatesNotPositive

  /** The checks of `assertParams`, in their order. */
  function CheckParams(p: EvidenceCollection.STDPParams, blankVersion: bool): Option<ParamError> {
    if blankVersion then Some(VersionBlank)
    else if p.patternWindowMs <= 0 then Some(WindowNotPositive)
    else if p.preTraceDecayMs <= 0 then Some(DecayNotPositive)
    else if p.learningRate <= 0.0 then Some(RateNotPositive)
    else if p.minSupport <= 0 then Some(SupportNotPositive)
    else if p.maxSteps <= 0 then Some(StepsNotPositive)
    else if p.maxSpan.Some? && p.maxSpan.value < 0 then Some(SpanNegative)
    else if p.maxGap.Some? && p.maxGap.value < 0 then Some(GapNegative)
    else if p.maxCandidates.Some? && p.maxCandidates.value <= 0 then Some(CandidatesNotPositive)
    else None
  }

  const DEFAULT_TARGET_OUTCOMES :=
    ["reject", "timeout", "anomaly", "promotion", "drift", "resolved", "pc_low", "pc_high"]

  /** What is asked for. `blankVersion` says whether the pattern version is empty after trimming; `hash` stands for
      `temporalPatternHash` under that version. */
  datatype Request = Request(
    sourceDomain: Option<string>,
    targetOutcomes: Option<seq<string>>,
    params: EvidenceCollection.STDPParams,
    blankVersion: bool,
    hash: (string, string, int, seq<string>) -> string)
  {
    function Outcomes(): seq<string> {
      if targetOutcomes.Some? then targetOutcomes.value else DEFAULT_TARGET_OUTCOMES
    }
  }

  // ---------- Domains ----------

  /** `learningEventsForDomain`: production events seeded by a pattern would confirm the pattern. */
  function InDomain(domain: string): TemporalEvent -> bool {
    (e: TemporalEvent) => e.sourceDomain == domain && (domain == "production" ==> !e.seeded)
  }

  function SourceIs(domain: string): TemporalEvent -> bool {
    (e: TemporalEvent) => e.sourceDomain == domain
  }

  /** A production event that a pattern seeded. */
  function NotSeededProduction(): TemporalEvent -> bool {
    (e: TemporalEvent) => !(e.sourceDomain == "production" && e.seeded)
  }

  /** A domain learns from all its events, production from all but the seeded ones. */
  lemma {:induction false} DomainEventsMeaning(events: seq<TemporalEvent>, domain: string)
    ensures Filter(events, InDomain(domain)) == Filter(Filter(events, NotSeededProduction()), SourceIs(domain))
    ensures domain != "production" ==> Filter(events, InDomain(domain)) == Filter(events, SourceIs(domain))
  {
    if events != [] {
      DomainEventsMeaning(events[1..], domain);
    }
  }

  /** The distinct domains in order of first occurrence (a JavaScript set). */
  function SeenDomains(events: seq<TemporalEvent>): (r: seq<string>)
    ensures NoDuplicates(r)
    ensures forall d :: d in r <==> exists e :: e in events && e.sourceDomain == d
  {
    if events == [] then []
    else
      var n := |events| - 1;
      var before, last := SeenDomains(events[..n]), events[n];
      assert forall e :: e in events <==> e in events[..n] || e == last;
      if last.sourceDomain in before then before else before + [last.sourceDomain]
  }

  function NotMixed(): string -> bool {
    (d: string) => d != "mixed"
  }

  function Domains(events: seq<TemporalEvent>, request: Request): seq<string> {
    if request.sourceDomain.Some? && request.sourceDomain.value != "" then [request.sourceDomain.value]
    else Filter(SortBy(SeenDomains(events), StringLeq), NotMixed())
  }

  lemma StringLeqTotalPreorder()
    ensures TotalPreorder(StringLeq)
  {
    forall a: string, b ensures StringLeq(a, b) || StringLeq(b, a) {
      StringLeqTotal(a, b);
    }
    forall a: string, b, c | StringLeq(a, b) && StringLeq(b, c) ensures StringLeq(a, c) {
      StringLeqTransitive(a, b, c);
    }
  }

  lemma SeenDomainsPermutation(a: seq<TemporalEvent>, b: seq<TemporalEvent>)
    requires Permutation(a, b)
    ensures Permutation(SeenDomains(a), SeenDomains(b))
  {
    PermutationBasics(a, b);
    SameMembers(SeenDomains(a), SeenDomains(b));
  }

  lemma DomainsPermutation(a: seq<TemporalEvent>, b: seq<TemporalEvent>, request: Request)
    requires Permutation(a, b)
    ensures Domains(a, request) == Domains(b, request)
  {
    SeenDomainsPermutation(a, b);
    StringLeqTotalPreorder();
    forall x, y | x in SeenDomains(a) && y in SeenDomains(a) && StringLeq(x, y) && StringLeq(y, x) ensures x == y {
      StringLeqTotal(x, y);
    }
    SortByPermutation(SeenDomains(a), SeenDomains(b), StringLeq);
  }

  /** A requested domain alone, or else all domains of the events but the mixed one, in ascending order. */
  lemma DomainsMeaning(events: seq<TemporalEvent>, request: Request, d: string)
    ensures request.sourceDomain.Some? && request.sourceDomain.value != "" ==>
              Domains(events, request) == [request.sourceDomain.value]
    ensures request.sourceDomain == None || request.sourceDomain == Some("") ==>
              && (d in Domains(events, request) <==> d != "mixed" && exists e :: e in events && e.sourceDomain == d)
              && NoDuplicates(Domains(events, request))
              && SortedBy(Domains(events, request), StringLeq)
  {
    SortedDomains(SeenDomains(events));
    var sorted := SortBy(SeenDomains(events), StringLeq);
    FilterNoDuplicates(sorted, NotMixed());
    FilterSorted(sorted, NotMixed(), StringLeq);
  }

  lemma SortedDomains(seen: seq<string>)
    requires NoDuplicates(seen)
    ensures var sorted := SortBy(seen, StringLeq);
            SortedBy(sorted, StringLeq) && NoDuplicates(sorted) && forall d :: d in sorted <==> d in seen
  {
    StringLeqTotalPreorder();
    SortBySorted(seen, StringLeq);
    PermutationBasics(SortBy(seen, StringLeq), seen);
    PermutationNoDuplicates(seen, SortBy(seen, StringLeq));
  }

  // ---------- Patterns ----------

  datatype Pattern = Pattern(domain: string, status: string, hash: string, hypothesis: Hypothesis)

  type Job = (string, string)

  function JobsFor(domain: string, outcomes: seq<string>): seq<Job> {
    if outcomes == [] then [] else JobsFor(domain, outcomes[..|outcomes| - 1]) + [(domain, outcomes[|outcomes| - 1])]
  }

  /** All pairs, domain by domain. */
  function Jobs(domains: seq<string>, outcomes: seq<string>): seq<Job> {
    if domains == [] then [] else Jobs(domains[..|domains| - 1], outcomes) + JobsFor(domains[|domains| - 1], outcomes)
  }

  function PatternFor(job: Job, request: Request, h: Hypothesis): Pattern {
    Pattern(job.0, job.1, request.hash(job.0, job.1, request.params.patternWindowMs, h.sequence), h)
  }

  function PatternsFor(job: Job, request: Request, hs: seq<Hypothesis>): seq<Pattern> {
    if hs == [] then []
    else PatternsFor(job, request, hs[..|hs| - 1]) + [PatternFor(job, request, hs[|hs| - 1])]
  }

  ghost predicate LearnedJob(job: Job, events: seq<TemporalEvent>, request: Request, c: CandidateTally.Curves,
                             hs: seq<Hypothesis>)
    requires request.params.Valid() && LearningCurves(c)
  {
    Learned(Filter(events, InDomain(job.0)), job.1, request.params, c, hs)
  }

  /** What the jobs learn, one after the other. */
  ghost predicate LearnedJobs(jobs: seq<Job>, events: seq<TemporalEvent>, request: Request, c: CandidateTally.Curves,
                              patterns: seq<Pattern>)
    requires request.params.Valid() && LearningCurves(c)
  {
    if jobs == [] then patterns == []
    else
      var n := |jobs| - 1;
      exists hs, before ::
        && LearnedJob(jobs[n], events, request, c, hs)
        && LearnedJobs(jobs[..n], events, request, c, before)
        && patterns == before + PatternsFor(jobs[n], request, hs)
  }

  /** Higher scores first, then the smaller hash. */
  predicate PatternLeq(l: Pattern, r: Pattern) {
    if l.hypothesis.patternScore != r.hypothesis.patternScore
    then l.hypothesis.patternScore > r.hypothesis.patternScore
    else StringLeq(l.hash, r.hash)
  }

  lemma PatternLeqTotalPreorder()
    ensures TotalPreorder(PatternLeq)
  {
    forall a: Pattern, b ensures PatternLeq(a, b) || PatternLeq(b, a) {
      StringLeqTotal(a.hash, b.hash);
    }
    forall a: Pattern, b, c | PatternLeq(a, b) && PatternLeq(b, c) ensures PatternLeq(a, c) {
      if a.hypothesis.patternScore == b.hypothesis.patternScore == c.hypothesis.patternScore {
        StringLeqTransitive(a.hash, b.hash, c.hash);
      }
    }
  }

  /** The answer to a request. */
  ghost predicate LearnedPatterns(events: seq<TemporalEvent>, request: Request, c: CandidateTally.Curves,
                                  patterns: seq<Pattern>)
    requires request.params.Valid() && LearningCurves(c)
  {
    exists all ::
      && LearnedJobs(Jobs(Domains(events, request), request.Outcomes()), events, request, c, all)
      && patterns == SortBy(all, PatternLeq)
  }

  lemma JobDone(jobs: seq<Job>, job: Job, events: seq<TemporalEvent>, request: Request, c: CandidateTally.Curves,
                before: seq<Pattern>, hs: seq<Hypothesis>)
    requires request.params.Valid() && LearningCurves(c)
    requires LearnedJobs(jobs, events, request, c, before) && LearnedJob(job, events, request, c, hs)
    ensures LearnedJobs(jobs + [job], events, request, c, before + PatternsFor(job, request, hs))
  {
    var more, n := jobs + [job], |jobs|;
    assert more[..n] == jobs && more[n] == job && n == |more| - 1;
    assert LearnedJob(more[n], events, request, c, hs) && LearnedJobs(more[..n], events, request, c, before);
  }

  lemma DomainEventsPlain(events: seq<TemporalEvent>, domain: string)
    requires PlainSignatures(events)
    ensures PlainSignatures(Filter(events, InDomain(domain)))
  {
  }

  method NamePatterns(job: Job, request: Request, hs: seq<Hypothesis>) returns (named: seq<Pattern>)
    ensures named == PatternsFor(job, request, hs)
  {
    named := [];
    for n := 0 to |hs|
      invariant named == PatternsFor(job, request, hs[..n])
    {
      assert hs[..n + 1][..n] == hs[..n];
      named := named + [PatternFor(job, request, hs[n])];
    }
    assert hs[..|hs|] == hs;
  }

  method LearnJob(job: Job, domainEvents: seq<TemporalEvent>, ghost events: seq<TemporalEvent>, request: Request,
                  c: CandidateTally.Curves)
    returns (named: seq<Pattern>, ghost hs: seq<Hypothesis>)
    requires request.params.Valid() && LearningCurves(c) && PlainSignatures(domainEvents)
    requires domainEvents == Filter(events, InDomain(job.0))
    ensures LearnedJob(job, events, request, c, hs) && named == PatternsFor(job, request, hs)
  {
    var learned := LearnForOutcome(domainEvents, job.1, request.params, c);
    named := NamePatterns(job, request, learned);
    hs := learned;
  }

  /** One domain: its events, then all target outcomes. */
  method LearnDomain(domain: string, outcomes: seq<string>, events: seq<TemporalEvent>, request: Request,
                     c: CandidateTally.Curves, ghost done: seq<Job>, before: seq<Pattern>)
    returns (patterns: seq<Pattern>)
    requires request.params.Valid() && LearningCurves(c) && PlainSignatures(events)
    requires LearnedJobs(done, events, request, c, before)
    ensures LearnedJobs(done + JobsFor(domain, outcomes), events, request, c, patterns)
  {
    patterns := before;
    var domainEvents := Filter(events, InDomain(domain));
    DomainEventsPlain(events, domain);
    NoJobsYet(done, domain, outcomes);
    for n := 0 to |outcomes|
      invariant LearnedJobs(done + JobsFor(domain, outcomes[..n]), events, request, c, patterns)
    {
      var job := (domain, outcomes[n]);
      var named;
      ghost var hs;
      named, hs := LearnJob(job, domainEvents, events, request, c);
      NextJobDone(done, domain, outcomes, n, n + 1, events, request, c, patterns, hs);
      patterns := patterns + named;
    }
    assert outcomes[..|outcomes|] == outcomes;
  }

  lemma NoJobsYet(done: seq<Job>, domain: string, outcomes: seq<string>)
    ensures done + JobsFor(domain, outcomes[..0]) == done
  {
  }

  lemma NextJobDone(done: seq<Job>, domain: string, outcomes: seq<string>, n: nat, next: nat,
                    events: seq<TemporalEvent>, request: Request, c: CandidateTally.Curves, patterns: seq<Pattern>,
                    hs: seq<Hypothesis>)
    requires request.params.Valid() && LearningCurves(c) && n < |outcomes| && next == n + 1
    requires LearnedJobs(done + JobsFor(domain, outcomes[..n]), events, request, c, patterns)
    requires LearnedJob((domain, outcomes[n]), events, request, c, hs)
    ensures LearnedJobs(done + JobsFor(domain, outcomes[..next]), events, request, c,
                        patterns + PatternsFor((domain, outcomes[n]), request, hs))
  {
    JobDone(done + JobsFor(domain, outcomes[..n]), (domain, outcomes[n]), events, request, c, patterns, hs);
    JobsForSnoc(done, domain, outcomes, n, next);
  }

  lemma JobsForSnoc(done: seq<Job>, domain: string, outcomes: seq<string>, n: nat, next: nat)
    requires n < |outcomes| && next == n + 1
    ensures done + JobsFor(domain, outcomes[..next]) == done + JobsFor(domain, outcomes[..n]) + [(domain, outcomes[n])]
  {
    assert outcomes[..next][..n] == outcomes[..n];
  }

  lemma JobsSnoc(domains: seq<string>, outcomes: seq<string>, n: nat, next: nat)
    requires n < |domains| && next == n + 1
    ensures Jobs(domains[..next], outcomes) == Jobs(domains[..n], outcomes) + JobsFor(domains[n], outcomes)
  {
    assert domains[..next][..n] == domains[..n];
  }

  /** The loop over the domains. */
  method LearnDomains(domains: seq<string>, outcomes: seq<string>, events: seq<TemporalEvent>, request: Request,
                      c: CandidateTally.Curves)
    returns (patterns: seq<Pattern>)
    requires request.params.Valid() && LearningCurves(c) && PlainSignatures(events)
    ensures LearnedJobs(Jobs(domains, outcomes), events, request, c, patterns)
  {
    patterns := [];
    for n := 0 to |domains|
      invariant LearnedJobs(Jobs(domains[..n], outcomes), events, request, c, patterns)
    {
      JobsSnoc(domains, outcomes, n, n + 1);
      patterns := LearnDomain(domains[n], outcomes, events, request, c, Jobs(domains[..n], outcomes), patterns);
    }
    assert domains[..|domains|] == domains;
  }

  /** The check that fails with error `e`. */
  predicate Violates(p: EvidenceCollection.STDPParams, blankVersion: bool, e: ParamError) {
    match e
    case VersionBlank => blankVersion
    case WindowNotPositive => p.patternWindowMs <= 0
    case DecayNotPositive => p.preTraceDecayMs <= 0
    case RateNotPositive => p.learningRate <= 0.0
    case SupportNotPositive => p.minSupport <= 0
    case StepsNotPositive => p.maxSteps <= 0
    case SpanNegative => p.maxSpan.Some? && p.maxSpan.value < 0
    case GapNegative => p.maxGap.Some? && p.maxGap.value < 0
    case CandidatesNotPositive => p.maxCandidates.Some? && p.maxCandidates.value <= 0
  }

  function PlaceOf(e: ParamError): nat {
    match e
    case VersionBlank => 0
    case WindowNotPositive => 1
    case DecayNotPositive => 2
    case RateNotPositive => 3
    case SupportNotPositive => 4
    case StepsNotPositive => 5
    case SpanNegative => 6
    case GapNegative => 7
    case CandidatesNotPositive => 8
  }

  /** The error is that of the first check that fails. */
  lemma FirstCheckDecides(p: EvidenceCollection.STDPParams, blankVersion: bool, e: ParamError)
    ensures CheckParams(p, blankVersion) == Some(e) <==>
            Violates(p, blankVersion, e) && forall d :: PlaceOf(d) < PlaceOf(e) ==> !Violates(p, blankVersion, d)
  {
    var found := CheckParams(p, blankVersion);
    if found.Some? {
      assert Violates(p, blankVersion, found.value);
      assert PlaceOf(found.value) < PlaceOf(e) || PlaceOf(e) <= PlaceOf(found.value);
    }
  }

  /** The checks let exactly the valid parameters through. */
  lemma CheckedIsValid(p: EvidenceCollection.STDPParams, blankVersion: bool)
    ensures CheckParams(p, blankVersion) == None <==> !blankVersion && p.Valid()
  {
  }

  method LearnTemporalPatterns(events: seq<TemporalEvent>, request: Request, c: CandidateTally.Curves)
    returns (r: Result<seq<Pattern>, ParamError>)
    requires LearningCurves(c) && PlainSignatures(events)
    ensures CheckParams(request.params, request.blankVersion).Some? ==>
              r == Err(CheckParams(request.params, request.blankVersion).value)
    ensures CheckParams(request.params, request.blankVersion).None? ==>
              request.params.Valid() && r.Ok? && LearnedPatterns(events, request, c, r.value)
  {
    CheckedIsValid(request.params, request.blankVersion);
    var error := CheckParams(request.params, request.blankVersion);
    if error.Some? {
      return Err(error.value);
    }
    var patterns := LearnDomains(Domains(events, request), request.Outcomes(), events, request, c);
    return Ok(SortBy(patterns, PatternLeq));
  }

  // ---------- The order of the input ----------

  lemma JobPermutation(job: Job, a: seq<TemporalEvent>, b: seq<TemporalEvent>, request: Request,
                       c: CandidateTally.Curves, hs: seq<Hypothesis>, hs': seq<Hypothesis>)
    requires request.params.Valid() && LearningCurves(c) && DistinctIds(a) && Permutation(a, b)
    requires LearnedJob(job, a, request, c, hs) && LearnedJob(job, b, request, c, hs')
    ensures hs == hs'
  {
    var keep := InDomain(job.0);
    FilterPermutation(a, b, keep);
    DistinctIdsFilter(a, keep);
    HypothesisTheorems.LearnedPermutation(Filter(a, keep), Filter(b, keep), job.1, request.params, c, hs, hs');
  }

  /** The last job and what the jobs before it learned. */
  lemma LastJob(jobs: seq<Job>, events: seq<TemporalEvent>, request: Request, c: CandidateTally.Curves,
                all: seq<Pattern>)
    returns (hs: seq<Hypothesis>, before: seq<Pattern>)
    requires request.params.Valid() && LearningCurves(c)
    requires jobs != [] && LearnedJobs(jobs, events, request, c, all)
    ensures LearnedJob(jobs[|jobs| - 1], events, request, c, hs)
    ensures LearnedJobs(jobs[..|jobs| - 1], events, request, c, before)
    ensures all == before + PatternsFor(jobs[|jobs| - 1], request, hs)
  {
    var n := |jobs| - 1;
    hs, before :|
      && LearnedJob(jobs[n], events, request, c, hs) && LearnedJobs(jobs[..n], events, request, c, before)
      && all == before + PatternsFor(jobs[n], request, hs);
  }

  lemma {:induction false} JobsPermutation(jobs: seq<Job>, a: seq<TemporalEvent>, b: seq<TemporalEvent>,
                                           request: Request,
                                           c: CandidateTally.Curves, all: seq<Pattern>, all': seq<Pattern>)
    requires request.params.Valid() && LearningCurves(c) && DistinctIds(a) && Permutation(a, b)
    requires LearnedJobs(jobs, a, request, c, all) && LearnedJobs(jobs, b, request, c, all')
    ensures all == all'
  {
    if jobs != [] {
      var n := |jobs| - 1;
      var hs, before := LastJob(jobs, a, request, c, all);
      var hs', before' := LastJob(jobs, b, request, c, all');
      JobPermutation(jobs[n], a, b, request, c, hs, hs');
      JobsPermutation(jobs[..n], a, b, request, c, before, before');
    }
  }

  /** With distinct ids, permuted events give the same final list of patterns, in the same order. */
  lemma PatternsPermutation(a: seq<TemporalEvent>, b: seq<TemporalEvent>, request: Request, c: CandidateTally.Curves,
                            patterns: seq<Pattern>, patterns': seq<Pattern>)
    requires request.params.Valid() && LearningCurves(c) && DistinctIds(a) && Permutation(a, b)
    requires LearnedPatterns(a, request, c, patterns) && LearnedPatterns(b, request, c, patterns')
    ensures patterns == patterns'
  {
    DomainsPermutation(a, b, request);
    var jobs := Jobs(Domains(a, request), request.Outcomes());
    var all :| LearnedJobs(jobs, a, request, c, all) && patterns == SortBy(all, PatternLeq);
    var all' :| LearnedJobs(jobs, b, request, c, all') && patterns' == SortBy(all', PatternLeq);
    JobsPermutation(jobs, a, b, request, c, all, all');
  }

  // ---------- Nothing is lost ----------

  lemma {:induction false} JobsForMembers(domain: string, outcomes: seq<string>, job: Job)
    ensures job in JobsFor(domain, outcomes) <==> job.0 == domain && job.1 in outcomes
  {
    if outcomes != [] {
      var n := |outcomes| - 1;
      JobsForMembers(domain, outcomes[..n], job);
      assert job.1 in outcomes <==> job.1 in outcomes[..n] || job.1 == outcomes[n];
    }
  }

  lemma {:induction false} JobsMembers(domains: seq<string>, outcomes: seq<string>, job: Job)
    ensures job in Jobs(domains, outcomes) <==> job.0 in domains && job.1 in outcomes
  {
    if domains != [] {
      var n := |domains| - 1;
      JobsMembers(domains[..n], outcomes, job);
      JobsForMembers(domains[n], outcomes, job);
      assert job.0 in domains <==> job.0 in domains[..n] || job.0 == domains[n];
    }
  }

  lemma {:induction false} PatternsForMembers(job: Job, request: Request, hs: seq<Hypothesis>, x: Pattern)
    ensures x in PatternsFor(job, request, hs) <==> x.hypothesis in hs && x == PatternFor(job, request, x.hypothesis)
  {
    if hs != [] {
      var n := |hs| - 1;
      PatternsForMembers(job, request, hs[..n], x);
      assert x.hypothesis in hs <==> x.hypothesis in hs[..n] || x.hypothesis == hs[n];
    }
  }

  /** Pattern `x` is a named hypothesis its own job learns. */
  ghost predicate LearnedBy(events: seq<TemporalEvent>, request: Request, c: CandidateTally.Curves, x: Pattern)
    requires request.params.Valid() && LearningCurves(c)
  {
    && x.hash == request.hash(x.domain, x.status, request.params.patternWindowMs, x.hypothesis.sequence)
    && exists hs :: LearnedJob((x.domain, x.status), events, request, c, hs) && x.hypothesis in hs
  }

  /** A job that learns `hs` is the only one behind the patterns it names. */
  lemma JobMembers(job: Job, events: seq<TemporalEvent>, request: Request, c: CandidateTally.Curves,
                   hs: seq<Hypothesis>, x: Pattern)
    requires request.params.Valid() && LearningCurves(c) && DistinctIds(events)
    requires LearnedJob(job, events, request, c, hs)
    ensures x in PatternsFor(job, request, hs) <==> (x.domain, x.status) == job && LearnedBy(events, request, c, x)
  {
    PatternsForMembers(job, request, hs, x);
    if (x.domain, x.status) == job && LearnedBy(events, request, c, x) {
      var hs' :| LearnedJob(job, events, request, c, hs') && x.hypothesis in hs';
      JobPermutation(job, events, events, request, c, hs, hs');
    }
  }

  lemma {:induction false} LearnedJobsMembers(jobs: seq<Job>, events: seq<TemporalEvent>, request: Request,
                                              c: CandidateTally.Curves, all: seq<Pattern>, x: Pattern)
    requires request.params.Valid() && LearningCurves(c) && DistinctIds(events)
    requires LearnedJobs(jobs, events, request, c, all)
    ensures x in all <==> (x.domain, x.status) in jobs && LearnedBy(events, request, c, x)
  {
    if jobs != [] {
      var n := |jobs| - 1;
      var hs, before := LastJob(jobs, events, request, c, all);
      LearnedJobsMembers(jobs[..n], events, request, c, before, x);
      JobMembers(jobs[n], events, request, c, hs, x);
    }
  }

  predicate ListedBefore(l: Pattern, r: Pattern) {
    && l.hypothesis.patternScore >= r.hypothesis.patternScore
    && (l.hypothesis.patternScore == r.hypothesis.patternScore ==> StringLeq(l.hash, r.hash))
  }

  /** The final list is ordered by falling score, then hash, and holds exactly what the domains learn for the target
      outcomes. */
  lemma PatternsExact(events: seq<TemporalEvent>, request: Request, c: CandidateTally.Curves, patterns: seq<Pattern>,
                      x: Pattern)
    requires request.params.Valid() && LearningCurves(c) && DistinctIds(events)
    requires LearnedPatterns(events, request, c, patterns)
    ensures SortedBy(patterns, PatternLeq)
    ensures forall i, j :: 0 <= i < j < |patterns| ==> ListedBefore(patterns[i], patterns[j])
    ensures x in patterns <==>
            x.domain in Domains(events, request) && x.status in request.Outcomes() && LearnedBy(events, request, c, x)
  {
    var jobs := Jobs(Domains(events, request), request.Outcomes());
    var all :| LearnedJobs(jobs, events, request, c, all) && patterns == SortBy(all, PatternLeq);
    PatternLeqTotalPreorder();
    SortBySorted(all, PatternLeq);
    PermutationBasics(patterns, all);
    forall i, j | 0 <= i < j < |patterns| ensures ListedBefore(patterns[i], patterns[j]) {
      assert PatternLeq(patterns[i], patterns[j]);
    }
    LearnedJobsMembers(jobs, events, request, c, all, x);
    JobsMembers(Domains(events, request), request.Outcomes(), (x.domain, x.status));
  }

  // ---------- Seeded production events ----------

  /** The events that were not seeded into production. */
  function Unseeded(events: seq<TemporalEvent>): seq<TemporalEvent> {
    Filter(events, NotSeededProduction())
  }

  lemma UnseededDomain(events: seq<TemporalEvent>, domain: string)
    ensures Filter(Unseeded(events), InDomain(domain)) == Filter(events, InDomain(domain))
  {
    DomainEventsMeaning(events, domain);
    DomainEventsMeaning(Unseeded(events), domain);
    FilterKeepsAll(Unseeded(events), NotSeededProduction());
  }

  lemma LearnedFromSomething(job: Job, events: seq<TemporalEvent>, request: Request, c: CandidateTally.Curves,
                             hs: seq<Hypothesis>)
    requires request.params.Valid() && LearningCurves(c) && LearnedJob(job, events, request, c, hs) && hs != []
    ensures Filter(events, InDomain(job.0)) != []
  {
  }

  lemma UnseededLearnsTheSame(events: seq<TemporalEvent>, request: Request, c: CandidateTally.Curves, x: Pattern)
    requires request.params.Valid() && LearningCurves(c)
    ensures LearnedBy(events, request, c, x) <==> LearnedBy(Unseeded(events), request, c, x)
  {
    UnseededDomain(events, x.domain);
    forall hs ensures LearnedJob((x.domain, x.status), events, request, c, hs)
                 <==> LearnedJob((x.domain, x.status), Unseeded(events), request, c, hs)
    {
    }
  }

  lemma LearnedDomainIsListed(events: seq<TemporalEvent>, request: Request, c: CandidateTally.Curves, x: Pattern)
    requires request.params.Valid() && LearningCurves(c) && LearnedBy(events, request, c, x)
    ensures x.domain in Domains(events, request) <==> x.domain in Domains(Unseeded(events), request)
  {
    var hs :| LearnedJob((x.domain, x.status), events, request, c, hs) && x.hypothesis in hs;
    LearnedFromSomething((x.domain, x.status), events, request, c, hs);
    UnseededDomain(events, x.domain);
    var e := Filter(events, InDomain(x.domain))[0];
    assert e in Filter(events, InDomain(x.domain)) && e in Filter(Unseeded(events), InDomain(x.domain));
    DomainsMeaning(events, request, x.domain);
    DomainsMeaning(Unseeded(events), request, x.domain);
  }

  /** What patterns seeded into production confirms no pattern: without these events the same patterns are learned, in
      production and in every other domain. */
  lemma SeededAreIgnored(events: seq<TemporalEvent>, request: Request, c: CandidateTally.Curves, patterns: seq<Pattern>,
                         patterns': seq<Pattern>, x: Pattern)
    requires request.params.Valid() && LearningCurves(c) && DistinctIds(events)
    requires LearnedPatterns(events, request, c, patterns)
    requires LearnedPatterns(Unseeded(events), request, c, patterns')
    ensures x in patterns <==> x in patterns'
  {
    DistinctIdsFilter(events, NotSeededProduction());
    PatternsExact(events, request, c, patterns, x);
    PatternsExact(Unseeded(events), request, c, patterns', x);
    UnseededLearnsTheSame(events, request, c, x);
    if LearnedBy(events, request, c, x) {
      LearnedDomainIsListed(events, request, c, x);
    }
  }
}
