/**
 The post-gate a plan manifest must pass before any of its jobs may run
 (internal/contracts/plan.go, ValidatePlan).
 */
module Plan {
  import opened Results
  import opened Int64
  import opened Text
  import opened Order
  import opened Digraph
  import opened Levels
  import opened LevelFacts
  import opened Ancestors
  import opened Envelope
  import opened SchemaPatterns
  import opened Artifacts

  ghost predicate Inside(envelope: seq<string>, patterns: seq<string>) {
    forall w | w in patterns :: Covered(envelope, w)
  }

  /** The conditions on one job; `validate` stands for Contract.Validate reporting no error. */
  ghost predicate JobOk(j: Contract, root: string, envelope: seq<string>, validate: Contract -> bool) {
    && validate(j) && j.root == root && !Blank(j.riskClass) && j.maxTokens > 0
    && Inside(envelope, j.write) && Inside(envelope, j.intendedWrites)
  }

  predicate DepsOk(ids: set<string>, id: string, deps: seq<string>) {
    forall d | d in deps :: d != id && d in ids
  }

  predicate KnownDeps(jobs: seq<Contract>, ids: set<string>) {
    forall j | j in jobs :: DepsOk(ids, j.jobId, j.dependsOn)
  }

  /** The documented conditions on a plan. */
  ghost predicate PlanOk(jobs: seq<Contract>, root: string, envelope: seq<string>, maxTotal: int,
                         validate: Contract -> bool)
  {
    && StaticOk(jobs, root, envelope, maxTotal, validate)
    && Acyclic(DependsOn(jobs)) && ConsumesFromAncestors(jobs)
  }

  /** The conditions that need no graph. */
  ghost predicate StaticOk(jobs: seq<Contract>, root: string, envelope: seq<string>, maxTotal: int,
                           validate: Contract -> bool)
  {
    && jobs != [] && maxTotal > 0 && envelope != []
    && JobsOk(jobs, root, envelope, validate) && KnownDeps(jobs, Ids(jobs))
    && Wrap64(TotalTokens(jobs)) <= maxTotal
  }

  ghost predicate ConsumesFromAncestors(jobs: seq<Contract>) {
    forall j, name | j in jobs && name in j.consumes :: HasAncestorProducer(jobs, name, j.jobId)
  }

  ghost predicate HasAncestorProducer(jobs: seq<Contract>, name: string, id: string) {
    exists p :: Produces(jobs, name, p) && Reaches(DependsOn(jobs), p, id)
  }

  lemma DepsStep(ids: set<string>, id: string, deps: seq<string>, n: nat)
    requires n < |deps|
    ensures DepsOk(ids, id, deps[..n+1]) <==> DepsOk(ids, id, deps[..n]) && deps[n] != id && deps[n] in ids
  {
    assert deps[..n+1] == deps[..n] + [deps[n]];
    assert deps[n] in deps[..n+1];
    assert forall d | d in deps[..n] :: d in deps[..n+1];
  }

  /** One error for every pattern outside the envelope. */
  method CheckPatterns(i: nat, envelope: seq<string>, patterns: seq<string>) returns (errs: seq<PlanError>)
    ensures errs == [] <==> Inside(envelope, patterns)
    ensures forall e | e in errs :: e.EscapesEnvelope? && e.job == i
    ensures forall w :: EscapesEnvelope(i, w) in errs <==> w in patterns && !Covered(envelope, w)
  {
    errs := [];
    for n := 0 to |patterns|
      invariant forall e | e in errs :: e.EscapesEnvelope? && e.job == i
      invariant forall w :: EscapesEnvelope(i, w) in errs <==> w in patterns[..n] && !Covered(envelope, w)
    {
      assert patterns[..n+1] == patterns[..n] + [patterns[n]];
      var covered := EnvelopeCovers(envelope, patterns[n]);
      if !covered {
        errs := errs + [EscapesEnvelope(i, patterns[n])];
      }
    }
    assert patterns[..|patterns|] == patterns;
    if errs != [] { assert errs[0] == EscapesEnvelope(i, errs[0].pattern) && errs[0] in errs; }
  }

  method CheckJob(i: nat, j: Contract, root: string, envelope: seq<string>, validate: Contract -> bool)
    returns (errs: seq<PlanError>)
    ensures errs == [] <==> JobOk(j, root, envelope, validate)
    ensures InvalidContract(i) in errs <==> !validate(j)
    ensures WrongRoot(i) in errs <==> j.root != root
    ensures NoRiskClass(i) in errs <==> Blank(j.riskClass)
    ensures NoTokens(i) in errs <==> j.maxTokens <= 0
    ensures forall w :: EscapesEnvelope(i, w) in errs <==>
            (w in j.write || w in j.intendedWrites) && !Covered(envelope, w)
  {
    errs := [];
    if !validate(j) { errs := errs + [InvalidContract(i)]; }
    if j.root != root { errs := errs + [WrongRoot(i)]; }
    if Blank(j.riskClass) { errs := errs + [NoRiskClass(i)]; }
    if j.maxTokens <= 0 { errs := errs + [NoTokens(i)]; }
    var writes := CheckPatterns(i, envelope, j.write);
    var intended := CheckPatterns(i, envelope, j.intendedWrites);
    errs := errs + writes + intended;
  }

  /** Distinct ids, and every job acceptable on its own. */
  ghost predicate JobsOk(jobs: seq<Contract>, root: string, envelope: seq<string>, validate: Contract -> bool) {
    UniqueIds(jobs) && forall j | j in jobs :: JobOk(j, root, envelope, validate)
  }

  lemma JobsOkStep(jobs: seq<Contract>, i: nat, root: string, envelope: seq<string>, validate: Contract -> bool)
    requires i < |jobs|
    ensures JobsOk(jobs[..i+1], root, envelope, validate) <==>
            JobsOk(jobs[..i], root, envelope, validate) && jobs[i].jobId !in Ids(jobs[..i]) &&
            JobOk(jobs[i], root, envelope, validate)
  {
    PrefixFacts(jobs, i);
    assert jobs[..i+1] == jobs[..i] + [jobs[i]];
  }

  method CheckJobs(jobs: seq<Contract>, root: string, envelope: seq<string>, validate: Contract -> bool)
    returns (errs: seq<PlanError>, seen: set<string>, total: int)
    requires forall c :: validate(c) ==> c.jobId != ""
    ensures errs == [] <==> JobsOk(jobs, root, envelope, validate)
    ensures errs == [] ==> seen == Ids(jobs) && total == Wrap64(TotalTokens(jobs))
  {
    errs, seen, total := [], {}, 0;
    for i := 0 to |jobs|
      invariant errs == [] <==> JobsOk(jobs[..i], root, envelope, validate)
      invariant errs == [] ==> seen == Ids(jobs[..i]) && total == Wrap64(TotalTokens(jobs[..i]))
    {
      var j := jobs[i];
      PrefixFacts(jobs, i);
      JobsOkStep(jobs, i, root, envelope, validate);
      var jobErrs := CheckJob(i, j, root, envelope, validate);
      errs := errs + jobErrs;
      if j.jobId != "" {
        if j.jobId in seen {
          errs := errs + [DuplicateId(i)];
        }
        seen := seen + {j.jobId};
      }
      if j.maxTokens > 0 {
        total := Wrap64(total + j.maxTokens);
      }
    }
    assert jobs[..|jobs|] == jobs;
  }

  lemma PrefixFacts(jobs: seq<Contract>, i: nat)
    requires i < |jobs|
    ensures Ids(jobs[..i+1]) == Ids(jobs[..i]) + {jobs[i].jobId}
    ensures UniqueIds(jobs[..i+1]) <==> UniqueIds(jobs[..i]) && jobs[i].jobId !in Ids(jobs[..i])
    ensures Wrap64(Wrap64(TotalTokens(jobs[..i])) + jobs[i].maxTokens) == Wrap64(TotalTokens(jobs[..i+1]))
  {
    IdsStep(jobs, i);
    UniqueStep(jobs, i);
    TotalStep(jobs, i);
  }

  lemma IdsStep(jobs: seq<Contract>, i: nat)
    requires i < |jobs|
    ensures Ids(jobs[..i+1]) == Ids(jobs[..i]) + {jobs[i].jobId}
  {
    assert jobs[..i+1] == jobs[..i] + [jobs[i]];
  }

  lemma UniqueStep(jobs: seq<Contract>, i: nat)
    requires i < |jobs|
    ensures UniqueIds(jobs[..i+1]) <==> UniqueIds(jobs[..i]) && jobs[i].jobId !in Ids(jobs[..i])
  {
    UniqueSplit(jobs[..i+1], i);
    assert jobs[..i+1][..i] == jobs[..i];
  }

  lemma TotalStep(jobs: seq<Contract>, i: nat)
    requires i < |jobs|
    ensures Wrap64(Wrap64(TotalTokens(jobs[..i])) + jobs[i].maxTokens) == Wrap64(TotalTokens(jobs[..i+1]))
  {
    assert jobs[..i+1][..i] == jobs[..i];
    WrapStep(TotalTokens(jobs[..i]), jobs[i].maxTokens);
  }

  method CheckDeps(jobs: seq<Contract>, seen: set<string>) returns (errs: seq<PlanError>)
    ensures errs == [] <==> KnownDeps(jobs, seen)
    ensures forall i: nat :: SelfDependency(i) in errs <==> i < |jobs| && jobs[i].jobId in jobs[i].dependsOn
    ensures forall i: nat, d :: UnknownDependency(i, d) in errs <==>
                           i < |jobs| && d in jobs[i].dependsOn && d != jobs[i].jobId && d !in seen
  {
    errs := [];
    for i := 0 to |jobs|
      invariant errs == [] <==> KnownDeps(jobs[..i], seen)
      invariant forall k: nat :: SelfDependency(k) in errs <==> k < i && jobs[k].jobId in jobs[k].dependsOn
      invariant forall k: nat, d :: UnknownDependency(k, d) in errs <==>
                               k < i && d in jobs[k].dependsOn && d != jobs[k].jobId && d !in seen
    {
      var more := CheckJobDeps(i, jobs[i].jobId, jobs[i].dependsOn, seen);
      errs := errs + more;
      assert jobs[..i+1] == jobs[..i] + [jobs[i]];
    }
    assert jobs[..|jobs|] == jobs;
  }

  /** The references of one job. */
  method CheckJobDeps(i: nat, id: string, deps: seq<string>, seen: set<string>) returns (errs: seq<PlanError>)
    ensures errs == [] <==> DepsOk(seen, id, deps)
    ensures SelfDependency(i) in errs <==> id in deps
    ensures forall d :: UnknownDependency(i, d) in errs <==> d in deps && d != id && d !in seen
    ensures forall e | e in errs :: e == SelfDependency(i) || (e.UnknownDependency? && e.job == i)
  {
    errs := [];
    for n := 0 to |deps|
      invariant errs == [] <==> DepsOk(seen, id, deps[..n])
      invariant SelfDependency(i) in errs <==> id in deps[..n]
      invariant forall d :: UnknownDependency(i, d) in errs <==> d in deps[..n] && d != id && d !in seen
      invariant forall e | e in errs :: e == SelfDependency(i) || (e.UnknownDependency? && e.job == i)
    {
      DepsStep(seen, id, deps, n);
      assert deps[..n+1] == deps[..n] + [deps[n]];
      if deps[n] == id {
        errs := errs + [SelfDependency(i)];
      } else if deps[n] !in seen {
        errs := errs + [UnknownDependency(i, deps[n])];
      }
    }
    assert deps[..|deps|] == deps;
  }

  /** The two lists agree except for the resolved artifact sources. */
  predicate SameShape(a: seq<Contract>, b: seq<Contract>) {
    |a| == |b| && forall i | 0 <= i < |a| :: b[i] == a[i].(artifactSources := b[i].artifactSources)
  }

  lemma SameShapeFacts(a: seq<Contract>, b: seq<Contract>)
    requires SameShape(a, b)
    ensures Ids(a) == Ids(b) && DependsOn(a) == DependsOn(b) && (UniqueIds(a) <==> UniqueIds(b))
    ensures forall name, p :: Produces(a, name, p) <==> Produces(b, name, p)
  {
    SameShapeHalf(a, b);
    SameShapeHalf(b, a);
  }

  lemma SameShapeHalf(a: seq<Contract>, b: seq<Contract>)
    requires SameShape(a, b)
    ensures SameShape(b, a)
    ensures Ids(a) <= Ids(b) && (UniqueIds(a) ==> UniqueIds(b))
    ensures DependsOn(a) <= DependsOn(b)
    ensures forall name, p :: Produces(a, name, p) ==> Produces(b, name, p)
  {
    forall j | j in a
      ensures exists k :: k in b && k.jobId == j.jobId && k.dependsOn == j.dependsOn && k.produces == j.produces
    {
      var i :| 0 <= i < |a| && a[i] == j;
      assert b[i] in b;
    }
  }

  lemma {:induction false} ShapeKeepsTotal(a: seq<Contract>, b: seq<Contract>)
    requires SameShape(a, b)
    ensures TotalTokens(a) == TotalTokens(b)
  {
    if a != [] {
      ShapeKeepsTotal(a[..|a|-1], b[..|b|-1]);
    }
  }

  /** With every reference known, the restricted and the full dependency graph are the same. */
  lemma KnownDepsGraph(jobs: seq<Contract>)
    requires KnownDeps(jobs, Ids(jobs))
    ensures DependsOn(jobs) == AllDeps(jobs)
  {
    forall e | e in AllDeps(jobs) ensures e in DependsOn(jobs) {
      var j, d :| j in jobs && d in j.dependsOn && e == (d, j.jobId);
      assert DepsOk(Ids(jobs), j.jobId, j.dependsOn);
    }
  }

  /** On a sound and complete ancestor map, membership is reachability. */
  lemma ExactAncestors(jobs: seq<Contract>, anc: map<string, set<string>>, id: string, p: string)
    requires AncestorMap(jobs, anc) && UniqueIds(jobs) && KnownDeps(jobs, Ids(jobs)) && Acyclic(DependsOn(jobs)) &&
             id in anc
    ensures p in anc[id] <==> Reaches(DependsOn(jobs), p, id)
  {
    KnownDepsGraph(jobs);
    assert Sound(AllDeps(jobs), id, anc[id]) && Complete(AllDeps(jobs), id, anc[id]);
  }

  lemma ExactProducers(jobs: seq<Contract>, anc: map<string, set<string>>)
    requires AncestorMap(jobs, anc) && UniqueIds(jobs) && KnownDeps(jobs, Ids(jobs)) && Acyclic(DependsOn(jobs))
    ensures AllProduced(jobs, anc) <==> ConsumesFromAncestors(jobs)
  {
    forall j, name | j in jobs && name in j.consumes
      ensures HasProducer(jobs, anc[j.jobId], name) <==> HasAncestorProducer(jobs, name, j.jobId)
    {
      forall p ensures p in anc[j.jobId] <==> Reaches(DependsOn(jobs), p, j.jobId) {
        ExactAncestors(jobs, anc, j.jobId, p);
      }
    }
  }

  /**
   The consumer `c` takes the artifact from a job in a strictly earlier level that declares it, is an
   ancestor, and is the lexicographically greatest ancestor to declare it.
   */
  ghost predicate Wired(jobs: seq<Contract>, levels: seq<seq<Contract>>, c: Contract, name: string) {
    && name in c.artifactSources
    && (exists j, k, p ::
          && 0 <= j < k < |levels| && p in levels[j] && c in levels[k]
          && p.jobId == c.artifactSources[name] && name in p.produces)
    && Reaches(DependsOn(jobs), c.artifactSources[name], c.jobId)
    && (forall q | Produces(jobs, name, q) && Reaches(DependsOn(jobs), q, c.jobId) :: !Less(c.artifactSources[name], q))
  }

  /** The resolver's choice, in terms of true ancestors. */
  lemma ResolvedSource(jobs: seq<Contract>, anc: map<string, set<string>>, before: Contract, after: Contract,
                       name: string)
    requires AncestorMap(jobs, anc) && UniqueIds(jobs) && KnownDeps(jobs, Ids(jobs)) && Acyclic(DependsOn(jobs))
    requires before in jobs && Resolved(jobs, anc, before, after) && name in before.consumes
    requires HasAncestorProducer(jobs, name, before.jobId)
    ensures name in after.artifactSources
    ensures Produces(jobs, name, after.artifactSources[name])
    ensures Reaches(DependsOn(jobs), after.artifactSources[name], before.jobId)
    ensures forall q | Produces(jobs, name, q) && Reaches(DependsOn(jobs), q, before.jobId) ::
            !Less(after.artifactSources[name], q)
  {
    var r, id := DependsOn(jobs), before.jobId;
    forall p ensures p in anc[id] <==> Reaches(r, p, id) { ExactAncestors(jobs, anc, id, p); }
    assert HasProducer(jobs, anc[id], name);
    var sources :| AreSources(jobs, anc[id], before.consumes, sources) && after == WithSources(before, sources);
    assert name in sources && IsSource(jobs, anc[id], name, sources[name]);
  }

  /** An ancestor that declares the artifact is found in a strictly earlier level. */
  lemma SourceEarlier(jobs: seq<Contract>, levels: seq<seq<Contract>>, c: Contract, name: string, p: string)
    requires IsLayering(jobs, levels) && c in jobs
    requires Produces(jobs, name, p) && Reaches(DependsOn(jobs), p, c.jobId)
    ensures exists j, k, producer ::
              && 0 <= j < k < |levels| && producer in levels[j] && c in levels[k]
              && producer.jobId == p && name in producer.produces
  {
    var producer :| producer in jobs && producer.jobId == p && name in producer.produces;
    InSomeLevel(jobs, levels, producer);
    InSomeLevel(jobs, levels, c);
    var j :| 0 <= j < |levels| && producer in levels[j];
    var k :| 0 <= k < |levels| && c in levels[k];
    var w :| Chain(DependsOn(jobs), w) && |w| >= 2 && w[0] == p && w[|w|-1] == c.jobId;
    AncestorsEarlier(DependsOn(jobs), w, j, k);
  }

  /** From a resolved list to the wiring of its levels. */
  lemma ResolvedIsWired(before: seq<Contract>, after: seq<Contract>, anc: map<string, set<string>>,
                        levels: seq<seq<Contract>>, i: nat, name: string)
    requires SameShape(before, after) && i < |after| && name in after[i].consumes
    requires AncestorMap(before, anc) && UniqueIds(before) && KnownDeps(before, Ids(before)) &&
             Acyclic(DependsOn(before))
    requires before[i] in before && Resolved(before, anc, before[i], after[i])
    requires HasAncestorProducer(before, name, before[i].jobId) && IsLayering(after, levels)
    ensures Wired(after, levels, after[i], name)
  {
    SameShapeFacts(before, after);
    ResolvedSource(before, anc, before[i], after[i], name);
    SourceEarlier(after, levels, after[i], name, after[i].artifactSources[name]);
  }

  lemma InSomeLevel(jobs: seq<Contract>, levels: seq<seq<Contract>>, c: Contract)
    requires IsLayering(jobs, levels) && c in jobs
    ensures exists k :: 0 <= k < |levels| && c in levels[k]
  {
    FlattenMember(levels, c);
    assert c in multiset(Flatten(levels));
  }

  method CollectErrors(jobs: array<Contract>, root: string, envelope: seq<string>, maxTotal: int,
                       validate: Contract -> bool)
    returns (errs: seq<PlanError>, ghost anc: map<string, set<string>>)
    requires forall c :: validate(c) ==> c.jobId != ""
    modifies jobs
    ensures AncestorMap(old(jobs[..]), anc)
    ensures errs == [] <==>
            StaticOk(old(jobs[..]), root, envelope, maxTotal, validate) && AllProduced(old(jobs[..]), anc)
    ensures AllResolved(old(jobs[..]), jobs[..], anc)
  {
    errs := CheckStatic(jobs[..], root, envelope, maxTotal, validate);
    var more;
    more, anc := ResolveArtifactSources(jobs);
    errs := errs + more;
  }

  method CheckStatic(jobs: seq<Contract>, root: string, envelope: seq<string>, maxTotal: int,
                     validate: Contract -> bool)
    returns (errs: seq<PlanError>)
    requires forall c :: validate(c) ==> c.jobId != ""
    ensures errs == [] <==> StaticOk(jobs, root, envelope, maxTotal, validate)
  {
    errs := CheckHeader(|jobs|, envelope, maxTotal);
    var jobErrs, seen, total := CheckJobs(jobs, root, envelope, validate);
    errs := errs + jobErrs;
    if maxTotal > 0 && total > maxTotal {
      errs := errs + [OverBudget];
    }
    var depErrs := CheckDeps(jobs, seen);
    errs := errs + depErrs;
  }

  method ValidatePlan(jobs: array<Contract>, root: string, envelope: seq<string>, maxTotal: int,
                      validate: Contract -> bool)
    returns (res: Result<seq<seq<Contract>>, seq<PlanError>>, ghost anc: map<string, set<string>>)
    requires forall c :: validate(c) ==> c.jobId != ""
    modifies jobs
    ensures AncestorMap(old(jobs[..]), anc) && AllResolved(old(jobs[..]), jobs[..], anc)
    ensures res.Ok? <==> PlanOk(old(jobs[..]), root, envelope, maxTotal, validate)
    ensures SameShape(old(jobs[..]), jobs[..])
    ensures res.Ok? ==> IsLayering(jobs[..], res.value)
    ensures res.Ok? ==> AllWired(jobs[..], res.value)
    ensures res.Err? ==> res.error != []
  {
    ghost var before := jobs[..];
    var errs;
    errs, anc := CollectErrors(jobs, root, envelope, maxTotal, validate);
    res := OrderJobs(errs, jobs[..]);
    GateOutcome(before, jobs[..], root, envelope, maxTotal, validate, errs, anc, res);
  }

  method OrderJobs(errs: seq<PlanError>, jobs: seq<Contract>) returns (res: Result<seq<seq<Contract>>, seq<PlanError>>)
    ensures res.Ok? <==> errs == [] && UniqueIds(jobs) && Acyclic(DependsOn(jobs))
    ensures res.Ok? ==> IsLayering(jobs, res.value)
    ensures res.Err? ==> res.error != []
  {
    if |errs| > 0 {
      return Err(errs);
    }
    var levels := TopologicalLevels(jobs);
    match levels {
      case Err(n) => return Err([Cycle(n)]);
      case Ok(ls) => return Ok(ls);
    }
  }

  lemma ResolvedShape(before: seq<Contract>, after: seq<Contract>, anc: map<string, set<string>>)
    requires AllResolved(before, after, anc)
    ensures SameShape(before, after)
  {
    forall i | 0 <= i < |before| ensures after[i] == before[i].(artifactSources := after[i].artifactSources) {
      assert ResolvedAt(before, after, anc, i);
    }
  }

  lemma GateOutcome(before: seq<Contract>, after: seq<Contract>, root: string, envelope: seq<string>, maxTotal: int,
                    validate: Contract -> bool, errs: seq<PlanError>, anc: map<string, set<string>>,
                    res: Result<seq<seq<Contract>>, seq<PlanError>>)
    requires AncestorMap(before, anc) && AllResolved(before, after, anc)
    requires errs == [] <==> StaticOk(before, root, envelope, maxTotal, validate) && AllProduced(before, anc)
    requires res.Ok? <==> errs == [] && UniqueIds(after) && Acyclic(DependsOn(after))
    requires res.Ok? ==> IsLayering(after, res.value)
    ensures res.Ok? <==> PlanOk(before, root, envelope, maxTotal, validate)
    ensures SameShape(before, after)
    ensures res.Ok? ==> AllWired(after, res.value)
  {
    ResolvedShape(before, after, anc);
    SameShapeFacts(before, after);
    GateExact(before, root, envelope, maxTotal, validate, anc);
    if res.Ok? {
      EverythingWired(before, after, anc, res.value);
    }
  }

  ghost predicate AllWired(jobs: seq<Contract>, levels: seq<seq<Contract>>) {
    forall c, name | c in jobs && name in c.consumes :: Wired(jobs, levels, c, name)
  }

  lemma EverythingWired(before: seq<Contract>, after: seq<Contract>, anc: map<string, set<string>>,
                        levels: seq<seq<Contract>>)
    requires SameShape(before, after) && IsLayering(after, levels)
    requires AncestorMap(before, anc) && UniqueIds(before) && KnownDeps(before, Ids(before)) &&
             Acyclic(DependsOn(before))
    requires AllResolved(before, after, anc) && AllProduced(before, anc)
    ensures AllWired(after, levels)
  {
    ExactProducers(before, anc);
    forall c, name | c in after && name in c.consumes ensures Wired(after, levels, c, name) {
      var i :| 0 <= i < |after| && after[i] == c;
      assert before[i] in before && name in before[i].consumes;
      assert ResolvedAt(before, after, anc, i);
      ResolvedIsWired(before, after, anc, levels, i, name);
    }
  }

  method CheckHeader(n: nat, envelope: seq<string>, maxTotal: int) returns (errs: seq<PlanError>)
    ensures errs == [] <==> n > 0 && maxTotal > 0 && envelope != []
    ensures NoJobs in errs <==> n == 0
    ensures NoTokenCap in errs <==> maxTotal <= 0
    ensures NoEnvelope in errs <==> envelope == []
  {
    errs := [];
    if n == 0 { errs := errs + [NoJobs]; }
    if maxTotal <= 0 { errs := errs + [NoTokenCap]; }
    if |envelope| == 0 { errs := errs + [NoEnvelope]; }
  }

  /** Given the static conditions and no cycle, the memo and the true ancestors agree on what is produced. */
  lemma GateExact(jobs: seq<Contract>, root: string, envelope: seq<string>, maxTotal: int, validate: Contract -> bool,
                 anc: map<string, set<string>>)
    requires AncestorMap(jobs, anc)
    ensures PlanOk(jobs, root, envelope, maxTotal, validate) <==>
            StaticOk(jobs, root, envelope, maxTotal, validate) && Acyclic(DependsOn(jobs)) && AllProduced(jobs, anc)
  {
    if StaticOk(jobs, root, envelope, maxTotal, validate) && Acyclic(DependsOn(jobs)) { ExactProducers(jobs, anc); }
  }

  // ---- the order of the job list does not matter

  lemma SameVerdict(jobs: seq<Contract>, jobs': seq<Contract>, root: string, envelope: seq<string>, maxTotal: int,
                    validate: Contract -> bool)
    requires multiset(jobs) == multiset(jobs') && PlanOk(jobs, root, envelope, maxTotal, validate)
    ensures PlanOk(jobs', root, envelope, maxTotal, validate)
  {
    SameMembers(jobs, jobs');
    SameGraph(jobs, jobs');
    TotalRearranged(jobs, jobs');
    assert jobs[0] in jobs';
    forall j, name | j in jobs' && name in j.consumes ensures HasAncestorProducer(jobs', name, j.jobId) {
      assert HasAncestorProducer(jobs, name, j.jobId);
      var p :| Produces(jobs, name, p) && Reaches(DependsOn(jobs), p, j.jobId);
      assert Produces(jobs', name, p);
    }
  }

  /** One contract, resolved in two listings of the same plan. */
  lemma SameResolution(jobs: seq<Contract>, jobs': seq<Contract>, anc: map<string, set<string>>,
                       anc': map<string, set<string>>, c: Contract, after: Contract, after': Contract)
    requires multiset(jobs) == multiset(jobs') && UniqueIds(jobs) && Acyclic(AllDeps(jobs))
    requires AncestorMap(jobs, anc) && AncestorMap(jobs', anc') && c in jobs && c in jobs'
    requires Resolved(jobs, anc, c, after) && Resolved(jobs', anc', c, after')
    ensures after == after'
  {
    var a :| AreSources(jobs, anc[c.jobId], c.consumes, a) && after == WithSources(c, a);
    var b :| AreSources(jobs', anc'[c.jobId], c.consumes, b) && after' == WithSources(c, b);
    SourcesOrderFree(jobs, jobs', anc, anc', c, a, b);
  }

  lemma ResolvedElsewhere(jobs: seq<Contract>, jobs': seq<Contract>, after: seq<Contract>, after': seq<Contract>,
                          anc: map<string, set<string>>, anc': map<string, set<string>>, i: nat)
    requires multiset(jobs) == multiset(jobs') && UniqueIds(jobs) && Acyclic(AllDeps(jobs))
    requires AncestorMap(jobs, anc) && AncestorMap(jobs', anc')
    requires AllResolved(jobs, after, anc) && AllResolved(jobs', after', anc') && i < |after|
    ensures after[i] in after'
  {
    SameMembers(jobs, jobs');
    assert jobs[i] in jobs';
    var j :| 0 <= j < |jobs'| && jobs'[j] == jobs[i];
    assert ResolvedAt(jobs, after, anc, i) && ResolvedAt(jobs', after', anc', j);
    SameResolution(jobs, jobs', anc, anc', jobs[i], after[i], after'[j]);
  }

  lemma UniqueDistinct(jobs: seq<Contract>)
    requires UniqueIds(jobs)
    ensures Distinct(jobs)
  {
  }

  /** Two listings of one plan are resolved to listings of one plan. */
  lemma SameResolvedPlan(jobs: seq<Contract>, jobs': seq<Contract>, after: seq<Contract>, after': seq<Contract>,
                         anc: map<string, set<string>>, anc': map<string, set<string>>)
    requires multiset(jobs) == multiset(jobs') && UniqueIds(jobs) && Acyclic(AllDeps(jobs))
    requires AncestorMap(jobs, anc) && AncestorMap(jobs', anc')
    requires AllResolved(jobs, after, anc) && AllResolved(jobs', after', anc')
    ensures multiset(after) == multiset(after') && UniqueIds(after)
  {
    SameMembers(jobs, jobs');
    ResolvedShape(jobs, after, anc);
    ResolvedShape(jobs', after', anc');
    SameShapeFacts(jobs, after);
    SameShapeFacts(jobs', after');
    UniqueDistinct(after);
    UniqueDistinct(after');
    forall c ensures c in after <==> c in after' {
      if c in after {
        var i :| 0 <= i < |after| && after[i] == c;
        ResolvedElsewhere(jobs, jobs', after, after', anc, anc', i);
      }
      if c in after' {
        var i :| 0 <= i < |after'| && after'[i] == c;
        ResolvedElsewhere(jobs', jobs, after', after, anc', anc, i);
      }
    }
    SameElementsSameMultiset(after, after');
  }

  /**
   The whole gate is independent of the order the jobs are listed in and of every map iteration on
   the way: the same verdict, and on acceptance the same levels of the same resolved contracts.
   */
  lemma GateOrderFree(jobs: seq<Contract>, jobs': seq<Contract>, root: string, envelope: seq<string>, maxTotal: int,
                      validate: Contract -> bool, after: seq<Contract>, after': seq<Contract>,
                      anc: map<string, set<string>>, anc': map<string, set<string>>,
                      levels: seq<seq<Contract>>, levels': seq<seq<Contract>>)
    requires multiset(jobs) == multiset(jobs') && PlanOk(jobs, root, envelope, maxTotal, validate)
    requires AncestorMap(jobs, anc) && AncestorMap(jobs', anc')
    requires AllResolved(jobs, after, anc) && AllResolved(jobs', after', anc')
    requires IsLayering(after, levels) && IsLayering(after', levels')
    ensures PlanOk(jobs', root, envelope, maxTotal, validate)
    ensures levels == levels'
  {
    SameVerdict(jobs, jobs', root, envelope, maxTotal, validate);
    KnownDepsGraph(jobs);
    SameResolvedPlan(jobs, jobs', after, after', anc, anc');
    LayeringUnique(after, after', levels, levels');
  }

  /**
   The token gate compares a 64-bit sum. For an accepted plan the returned levels stay within the cap
   exactly when the true sum fits the machine integer.
   */
  lemma BudgetExact(before: seq<Contract>, root: string, envelope: seq<string>, maxTotal: int,
                    validate: Contract -> bool, after: seq<Contract>, levels: seq<seq<Contract>>)
    requires PlanOk(before, root, envelope, maxTotal, validate) && maxTotal <= MAX_INT64
    requires SameShape(before, after) && IsLayering(after, levels)
    ensures LevelTokens(levels) <= maxTotal <==> TotalTokens(before) <= MAX_INT64
  {
    TokensConserved(after, levels);
    ShapeKeepsTotal(before, after);
    forall j | j in before ensures j.maxTokens >= 0 { assert JobOk(j, root, envelope, validate); }
    TotalNonNegative(before);
    WrapExact(TotalTokens(before), maxTotal);
  }

  lemma WrapExact(total: int, cap: int)
    requires 0 <= total && Wrap64(total) <= cap <= MAX_INT64
    ensures total <= cap <==> total <= MAX_INT64
  {
  }

  lemma {:induction false} TotalNonNegative(jobs: seq<Contract>)
    requires forall j | j in jobs :: j.maxTokens >= 0
    ensures TotalTokens(jobs) >= 0
  {
    if jobs != [] {
      assert forall j | j in jobs[..|jobs|-1] :: j in jobs;
      TotalNonNegative(jobs[..|jobs|-1]);
      assert jobs[|jobs|-1] in jobs;
    }
  }

  const MAX_SAFE_TOKENS: int := 1_000_000_000

  /** With the schema's bound on each job, a plan needs more than nine billion jobs to leave that range. */
  lemma {:induction false} BoundedTotal(jobs: seq<Contract>)
    requires forall j | j in jobs :: j.maxTokens <= MAX_SAFE_TOKENS
    ensures TotalTokens(jobs) <= |jobs| * MAX_SAFE_TOKENS
    ensures |jobs| <= 9_223_372_036 ==> TotalTokens(jobs) <= MAX_INT64
  {
    if jobs != [] {
      assert forall j | j in jobs[..|jobs|-1] :: j in jobs;
      BoundedTotal(jobs[..|jobs|-1]);
      assert jobs[|jobs|-1] in jobs;
    }
  }

  /** What the schema adds: no accepted plan of up to nine billion jobs exceeds its cap. */
  lemma BudgetHolds(before: seq<Contract>, root: string, envelope: seq<string>, maxTotal: int,
                    validate: Contract -> bool, after: seq<Contract>, levels: seq<seq<Contract>>)
    requires PlanOk(before, root, envelope, maxTotal, validate) && maxTotal <= MAX_INT64
    requires forall c :: validate(c) ==> c.maxTokens <= MAX_SAFE_TOKENS
    requires |before| <= 9_223_372_036 && SameShape(before, after) && IsLayering(after, levels)
    ensures LevelTokens(levels) <= maxTotal
  {
    forall j | j in before ensures j.maxTokens <= MAX_SAFE_TOKENS { assert JobOk(j, root, envelope, validate); }
    BoundedTotal(before);
    BudgetExact(before, root, envelope, maxTotal, validate, after, levels);
  }

  function HugeJob(id: string): Contract {
    Contract(id, "", "low", MAX_INT64, [], [], [], [], [], map[])
  }

  lemma HugeJobOk(id: string, validate: Contract -> bool)
    requires validate(HugeJob(id))
    ensures JobOk(HugeJob(id), "", ["f"], validate)
  {
    assert "low"[0] == 'l' && !IsSpace('l');
  }

  lemma HugeTotal(a: Contract, b: Contract)
    ensures TotalTokens([a, b]) == a.maxTokens + b.maxTokens
  {
    assert [a, b][..1] == [a] && [a][..0] == [];
    assert TotalTokens([a]) == a.maxTokens;
  }

  /** Without the schema's bound two jobs are enough: their sum wraps to -2 and passes any cap. */
  lemma WrappedPlan(maxTotal: int)
    requires 0 < maxTotal <= MAX_INT64
    ensures var jobs := [HugeJob("a"), HugeJob("b")];
            PlanOk(jobs, "", ["f"], maxTotal, (c: Contract) => c.jobId != "") && TotalTokens(jobs) > maxTotal
  {
    var jobs, validate := [HugeJob("a"), HugeJob("b")], (c: Contract) => c.jobId != "";
    assert JobsOk(jobs, "", ["f"], validate) by {
      HugeJobOk("a", validate);
      HugeJobOk("b", validate);
    }
    assert TotalTokens(jobs) == 2 * MAX_INT64 by { HugeTotal(HugeJob("a"), HugeJob("b")); }
    assert Acyclic(DependsOn(jobs)) by {
      assert DependsOn(jobs) == {};
      RankedAcyclic(DependsOn(jobs), map[]);
    }
  }

  /** Every write of an accepted plan stays inside the envelope, unless a declared pattern is a run of parent steps. */
  lemma WritesContained(jobs: seq<Contract>, root: string, envelope: seq<string>, maxTotal: int,
                        validate: Contract -> bool)
    requires PlanOk(jobs, root, envelope, maxTotal, validate)
    requires forall e | e in envelope :: !OnlyParents(e)
    ensures forall j, w | j in jobs && (w in j.write || w in j.intendedWrites) :: Contained(envelope, w)
  {
    EnvelopeSound(envelope);
    forall j, w | j in jobs && (w in j.write || w in j.intendedWrites) ensures Contained(envelope, w) {
      assert JobOk(j, root, envelope, validate);
      assert Covered(envelope, w);
    }
  }

  /** What the schema asks of a contract, as far as the gate relies on it. */
  predicate SchemaJob(c: Contract) {
    && c.jobId != "" && c.maxTokens <= MAX_SAFE_TOKENS
    && (forall w | w in c.write :: SchemaPattern(w)) && (forall w | w in c.intendedWrites :: SchemaPattern(w))
  }

  /**
   With the schema's own check of patterns, every accepted write is contained, whatever is declared,
   unless a pattern starts with white space.
   */
  lemma SchemaWritesContained(jobs: seq<Contract>, root: string, envelope: seq<string>, maxTotal: int,
                              validate: Contract -> bool)
    requires PlanOk(jobs, root, envelope, maxTotal, validate) && forall c :: validate(c) ==> SchemaJob(c)
    requires forall j, w | j in jobs && (w in j.write || w in j.intendedWrites) :: !LeadingSpace(w)
    ensures forall j, w | j in jobs && (w in j.write || w in j.intendedWrites) :: Contained(envelope, w)
  {
    forall j, w | j in jobs && (w in j.write || w in j.intendedWrites) ensures Contained(envelope, w) {
      assert JobOk(j, root, envelope, validate) && SchemaJob(j);
      assert Covered(envelope, w);
      var e :| e in envelope && PatternCovers(e, w);
      AcceptedLevel(w);
      LevelWithin(e, w);
    }
  }

  /** A plan of one acceptable job without dependencies. */
  lemma SoloPlan(c: Contract, root: string, envelope: seq<string>, maxTotal: int, validate: Contract -> bool)
    requires JobOk(c, root, envelope, validate) && envelope != []
    requires c.dependsOn == [] && c.consumes == [] && c.maxTokens <= maxTotal && c.maxTokens <= MAX_INT64
    ensures PlanOk([c], root, envelope, maxTotal, validate)
  {
    assert TotalTokens([c]) == c.maxTokens by { assert [c][..0] == []; }
    assert Acyclic(DependsOn([c])) by {
      assert DependsOn([c]) == {};
      RankedAcyclic(DependsOn([c]), map[]);
    }
  }

  function WritingJob(w: string): Contract {
    Contract("a", "", "low", 1, [w], [w], [], [], [], map[])
  }

  lemma WritingJobOk(w: string, envelope: seq<string>)
    requires SchemaPattern(w) && Covered(envelope, w)
    ensures JobOk(WritingJob(w), "", envelope, SchemaJob)
  {
    assert "low"[0] == 'l' && !IsSpace('l');
  }

  /** A plan that passes the schema and the gate, with a write above the declared envelope. */
  lemma SpacedPlan(maxTotal: int, w: string, envelope: seq<string>)
    requires 0 < maxTotal && w == " " + CLIMB && envelope == ["../**"]
    ensures PlanOk([WritingJob(w)], "", envelope, maxTotal, SchemaJob) && !Contained(envelope, w)
  {
    assert IsSpace(' ') && Blank(" ");
    SpacedEscape(" ");
    assert envelope[0] in envelope;
    WritingJobOk(w, envelope);
    SoloPlan(WritingJob(w), "", envelope, maxTotal, SchemaJob);
  }
}
