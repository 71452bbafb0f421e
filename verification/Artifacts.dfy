/**
 Which job each consumed artifact comes from
 (internal/contracts/plan.go, ResolveArtifactSources).
 */
module Artifacts {
  import opened Results
  import opened Order
  import opened Digraph
  import opened Levels
  import opened Ancestors

  datatype PlanError =
    | NoJobs | NoTokenCap | NoEnvelope | OverBudget
    | InvalidContract(job: nat) | DuplicateId(job: nat) | WrongRoot(job: nat)
    | NoRiskClass(job: nat) | NoTokens(job: nat)
    | EscapesEnvelope(job: nat, pattern: string)
    | SelfDependency(job: nat) | UnknownDependency(job: nat, dep: string)
    | NoProducer(job: nat, artifact: string)
    | Cycle(remaining: nat)

  // ---- artifact sources

  /** `p` declares the named artifact in `produces`. */
  ghost predicate Produces(jobs: seq<Contract>, name: string, p: string) {
    name != "" && exists j :: j in jobs && j.jobId == p && name in j.produces
  }

  /** `p` is the lexicographically greatest producer of the artifact among `ancestors`. */
  ghost predicate IsSource(jobs: seq<Contract>, ancestors: set<string>, name: string, p: string) {
    && Produces(jobs, name, p) && p in ancestors
    && forall q | Produces(jobs, name, q) && q in ancestors :: !Less(p, q)
  }

  ghost predicate HasProducer(jobs: seq<Contract>, ancestors: set<string>, name: string) {
    exists p :: Produces(jobs, name, p) && p in ancestors
  }

  /** `sources` maps exactly the consumed artifacts that have a producing ancestor to their source. */
  ghost predicate AreSources(jobs: seq<Contract>, ancestors: set<string>, consumes: seq<string>,
                             sources: map<string, string>)
  {
    && (forall name :: name in sources <==> name in consumes && HasProducer(jobs, ancestors, name))
    && (forall name | name in sources :: IsSource(jobs, ancestors, name, sources[name]))
  }

  lemma AreSourcesUnique(jobs: seq<Contract>, jobs': seq<Contract>, ancestors: set<string>, consumes: seq<string>,
                         a: map<string, string>, b: map<string, string>)
    requires forall j :: j in jobs <==> j in jobs'
    requires AreSources(jobs, ancestors, consumes, a) && AreSources(jobs', ancestors, consumes, b)
    ensures a == b
  {
    forall name, p ensures Produces(jobs, name, p) <==> Produces(jobs', name, p) {}
    forall name ensures name in a <==> name in b {
      assert HasProducer(jobs, ancestors, name) <==> HasProducer(jobs', ancestors, name);
    }
    forall name | name in a ensures a[name] == b[name] {
      assert IsSource(jobs, ancestors, name, a[name]) && IsSource(jobs', ancestors, name, b[name]);
      LessTotal(a[name], b[name]);
    }
  }

  method ProducersByName(jobs: seq<Contract>) returns (producers: map<string, seq<string>>)
    ensures ProducerTable(jobs, producers)
  {
    producers := map[];
    for i := 0 to |jobs|
      invariant forall name, p :: p in Get(producers, name) <==> Produces(jobs[..i], name, p)
    {
      var id, names := jobs[i].jobId, jobs[i].produces;
      ghost var before := producers;
      for n := 0 to |names|
        invariant forall name, p :: p in Get(producers, name) <==>
                                    p in Get(before, name) || (name != "" && p == id && name in names[..n])
      {
        assert names[..n+1] == names[..n] + [names[n]];
        if names[n] != "" {
          producers := producers[names[n] := Get(producers, names[n]) + [id]];
        }
      }
      assert names[..|names|] == names;
      ProducesStep(jobs, i);
    }
    assert jobs[..|jobs|] == jobs;
  }

  lemma ProducesStep(jobs: seq<Contract>, i: nat)
    requires i < |jobs|
    ensures forall name, p :: Produces(jobs[..i+1], name, p) <==>
                              Produces(jobs[..i], name, p) ||
                              (name != "" && p == jobs[i].jobId && name in jobs[i].produces)
  {
    assert jobs[..i+1] == jobs[..i] + [jobs[i]];
    forall name, p | Produces(jobs[..i], name, p) ensures Produces(jobs[..i+1], name, p) {
      var j :| j in jobs[..i] && j.jobId == p && name in j.produces;
      assert j in jobs[..i+1];
    }
    assert jobs[i] in jobs[..i+1];
  }

  /** The producing ancestors, sorted; the last one wins. */
  method FindSource(candidates: seq<string>, ancestors: set<string>) returns (source: Option<string>)
    ensures source.None? <==> forall p | p in candidates :: p !in ancestors
    ensures source.Some? ==> source.value in candidates && source.value in ancestors
    ensures source.Some? ==> forall q | q in candidates && q in ancestors :: !Less(source.value, q)
  {
    var matches := [];
    for i := 0 to |candidates|
      invariant forall p :: p in matches <==> p in candidates[..i] && p in ancestors
    {
      assert candidates[..i+1] == candidates[..i] + [candidates[i]];
      if candidates[i] in ancestors {
        matches := matches + [candidates[i]];
      }
    }
    assert candidates[..|candidates|] == candidates;
    var sorted := Sort(matches);
    SortSorts(matches);
    SortElements(matches);
    if |sorted| == 0 {
      assert forall p :: p !in sorted;
      return None;
    }
    var last := sorted[|sorted|-1];
    assert last in sorted;
    forall q | q in sorted ensures !Less(last, q) {
      var k :| 0 <= k < |sorted| && sorted[k] == q;
      if k == |sorted| - 1 && Less(last, q) { LessAsymmetric(last, q); }
    }
    return Some(last);
  }

  method SourcesOf(ghost jobs: seq<Contract>, i: nat, consumes: seq<string>, ancestors: set<string>,
                   producers: map<string, seq<string>>)
    returns (sources: map<string, string>, errs: seq<PlanError>)
    requires ProducerTable(jobs, producers)
    ensures AreSources(jobs, ancestors, consumes, sources)
    ensures errs == [] <==> forall name | name in consumes :: HasProducer(jobs, ancestors, name)
    ensures forall name :: NoProducer(i, name) in errs <==> name in consumes && !HasProducer(jobs, ancestors, name)
  {
    sources, errs := map[], [];
    for n := 0 to |consumes|
      invariant AreSources(jobs, ancestors, consumes[..n], sources)
      invariant errs == [] <==> forall name | name in consumes[..n] :: HasProducer(jobs, ancestors, name)
      invariant forall name :: NoProducer(i, name) in errs <==>
                               name in consumes[..n] && !HasProducer(jobs, ancestors, name)
    {
      var name := consumes[n];
      assert consumes[..n+1] == consumes[..n] + [name];
      var source := FindSource(Get(producers, name), ancestors);
      assert source.Some? <==> HasProducer(jobs, ancestors, name);
      match source {
        case None => errs := errs + [NoProducer(i, name)];
        case Some(p) =>
          assert IsSource(jobs, ancestors, name, p);
          sources := sources[name := p];
      }
    }
    assert consumes[..|consumes|] == consumes;
  }

  /** The contract as the resolver leaves it: only `artifactSources` may change, and only to a non-empty map. */
  function WithSources(c: Contract, sources: map<string, string>): Contract {
    if sources == map[] then c else c.(artifactSources := sources)
  }

  ghost predicate Resolved(jobs: seq<Contract>, anc: map<string, set<string>>, before: Contract, after: Contract)
    requires before.jobId in anc
  {
    exists sources ::
      AreSources(jobs, anc[before.jobId], before.consumes, sources) && after == WithSources(before, sources)
  }

  /** The job `j` declares the artifact and is an ancestor. */
  predicate Offers(j: Contract, ancestors: set<string>, name: string) {
    name != "" && name in j.produces && j.jobId in ancestors
  }

  /** What the resolver writes into a job, and what it leaves alone. */
  lemma ResolvedMeans(jobs: seq<Contract>, anc: map<string, set<string>>, before: Contract, after: Contract)
    requires before.jobId in anc && Resolved(jobs, anc, before, after)
    ensures after == before.(artifactSources := after.artifactSources)
    ensures (forall name, j | name in before.consumes && j in jobs :: !Offers(j, anc[before.jobId], name)) ==>
              after == before
    ensures after != before ==> forall name :: name in after.artifactSources <==>
              name in before.consumes && exists j :: j in jobs && Offers(j, anc[before.jobId], name)
    ensures after != before ==> forall name | name in after.artifactSources ::
              && (exists j :: j in jobs && Offers(j, anc[before.jobId], name) &&
                              j.jobId == after.artifactSources[name])
              && (forall j | j in jobs && Offers(j, anc[before.jobId], name) ::
                    j.jobId == after.artifactSources[name] || Less(j.jobId, after.artifactSources[name]))
  {
    var ancestors := anc[before.jobId];
    var sources :| AreSources(jobs, ancestors, before.consumes, sources) && after == WithSources(before, sources);
    forall name ensures HasProducer(jobs, ancestors, name) <==> exists j :: j in jobs && Offers(j, ancestors, name) {
      OffersMeans(jobs, ancestors, name);
    }
    forall name | name in sources
      ensures exists j :: j in jobs && Offers(j, ancestors, name) && j.jobId == sources[name]
      ensures forall j | j in jobs && Offers(j, ancestors, name) ::
                j.jobId == sources[name] || Less(j.jobId, sources[name])
    {
      SourceMeans(jobs, ancestors, name, sources[name]);
    }
  }

  lemma OffersMeans(jobs: seq<Contract>, ancestors: set<string>, name: string)
    ensures HasProducer(jobs, ancestors, name) <==> exists j :: j in jobs && Offers(j, ancestors, name)
  {
    if HasProducer(jobs, ancestors, name) {
      var p :| Produces(jobs, name, p) && p in ancestors;
      var j :| j in jobs && j.jobId == p && name in j.produces;
      assert Offers(j, ancestors, name);
    }
    if j :| j in jobs && Offers(j, ancestors, name) { assert Produces(jobs, name, j.jobId); }
  }

  lemma SourceMeans(jobs: seq<Contract>, ancestors: set<string>, name: string, p: string)
    requires IsSource(jobs, ancestors, name, p)
    ensures exists j :: j in jobs && Offers(j, ancestors, name) && j.jobId == p
    ensures forall j | j in jobs && Offers(j, ancestors, name) :: j.jobId == p || Less(j.jobId, p)
  {
    var producer :| producer in jobs && producer.jobId == p && name in producer.produces;
    assert Offers(producer, ancestors, name);
    forall j | j in jobs && Offers(j, ancestors, name) ensures j.jobId == p || Less(j.jobId, p) {
      assert Produces(jobs, name, j.jobId);
      LessTotal(j.jobId, p);
    }
  }

  ghost predicate AllProduced(jobs: seq<Contract>, anc: map<string, set<string>>)
    requires Ids(jobs) <= anc.Keys
  {
    forall j, name | j in jobs && name in j.consumes :: HasProducer(jobs, anc[j.jobId], name)
  }

  /** What planAncestors guarantees about its result. */
  ghost predicate AncestorMap(jobs: seq<Contract>, anc: map<string, set<string>>) {
    && Ids(jobs) <= anc.Keys
    && (forall k | k in anc :: Sound(AllDeps(jobs), k, anc[k]))
    && (UniqueIds(jobs) && Acyclic(AllDeps(jobs)) ==> forall k | k in anc :: Complete(AllDeps(jobs), k, anc[k]))
  }

  ghost predicate AllResolved(before: seq<Contract>, after: seq<Contract>, anc: map<string, set<string>>) {
    |before| == |after| && ResolvedPrefix(before, after, anc)
  }

  method ResolveArtifactSources(jobs: array<Contract>)
    returns (errs: seq<PlanError>, ghost anc: map<string, set<string>>)
    modifies jobs
    ensures AncestorMap(old(jobs[..]), anc)
    ensures AllResolved(old(jobs[..]), jobs[..], anc)
    ensures errs == [] <==> AllProduced(old(jobs[..]), anc)
  {
    var producers := ProducersByName(jobs[..]);
    var ancestors := PlanAncestors(jobs[..]);
    anc := ancestors;
    errs := FillSources(jobs, ancestors, producers);
  }

  ghost predicate Produced(jobs: seq<Contract>, anc: map<string, set<string>>, j: Contract) {
    j.jobId in anc && forall name | name in j.consumes :: HasProducer(jobs, anc[j.jobId], name)
  }

  method ResolveJob(ghost jobs: seq<Contract>, i: nat, job: Contract, ancestors: map<string, set<string>>,
                    producers: map<string, seq<string>>)
    returns (resolved: Contract, errs: seq<PlanError>)
    requires job.jobId in ancestors
    requires ProducerTable(jobs, producers)
    ensures Resolved(jobs, ancestors, job, resolved)
    ensures errs == [] <==> Produced(jobs, ancestors, job)
    ensures forall name :: NoProducer(i, name) in errs <==>
              name in job.consumes && !HasProducer(jobs, ancestors[job.jobId], name)
  {
    var sources;
    sources, errs := SourcesOf(jobs, i, job.consumes, ancestors[job.jobId], producers);
    resolved := job;
    if |sources| > 0 {
      resolved := job.(artifactSources := sources);
    }
    assert resolved == WithSources(job, sources);
  }

  /** What ProducersByName guarantees about its result. */
  ghost predicate ProducerTable(jobs: seq<Contract>, producers: map<string, seq<string>>) {
    forall name, p :: p in Get(producers, name) <==> Produces(jobs, name, p)
  }

  method FillSources(jobs: array<Contract>, ancestors: map<string, set<string>>, producers: map<string, seq<string>>)
    returns (errs: seq<PlanError>)
    requires Ids(jobs[..]) <= ancestors.Keys && ProducerTable(jobs[..], producers)
    modifies jobs
    ensures AllResolved(old(jobs[..]), jobs[..], ancestors)
    ensures errs == [] <==> AllProduced(old(jobs[..]), ancestors)
  {
    ghost var before := jobs[..];
    errs := [];
    for i := 0 to jobs.Length
      invariant Progress(before, jobs[..], i, ancestors)
      invariant errs == [] <==> ProducedPrefix(before, i, ancestors)
    {
      var more := FillJob(jobs, i, before, ancestors, producers);
      errs := errs + more;
    }
    ProgressDone(before, jobs[..], ancestors);
    ProducedAll(before, ancestors);
  }

  /** One job of the loop, updated in place. */
  method FillJob(jobs: array<Contract>, i: nat, ghost before: seq<Contract>, ancestors: map<string, set<string>>,
                 producers: map<string, seq<string>>)
    returns (errs: seq<PlanError>)
    requires i < jobs.Length && Progress(before, jobs[..], i, ancestors)
    requires Ids(before) <= ancestors.Keys && ProducerTable(before, producers)
    modifies jobs
    ensures Progress(before, jobs[..], i + 1, ancestors)
    ensures errs == [] <==> Produced(before, ancestors, before[i])
  {
    var job;
    UntouchedHead(before, jobs[..], i, ancestors);
    job, errs := ResolveJob(before, i, jobs[i], ancestors, producers);
    ProgressStep(before, jobs[..], i, ancestors, job);
    jobs[i] := job;
    assert jobs[..] == old(jobs[..])[i := job];
  }

  /** The first `i` jobs are resolved and the rest is as it was. */
  ghost predicate Progress(before: seq<Contract>, now: seq<Contract>, i: nat, anc: map<string, set<string>>) {
    i <= |before| == |now| && now[i..] == before[i..] && ResolvedPrefix(before, now[..i], anc)
  }

  /** The job at the loop index is still the one that was listed there. */
  lemma UntouchedHead(before: seq<Contract>, now: seq<Contract>, i: nat, anc: map<string, set<string>>)
    requires i < |before| && Progress(before, now, i, anc)
    ensures now[i] == before[i] && before[i].jobId in Ids(before)
  {
    assert now[i] == now[i..][0] && before[i] == before[i..][0];
  }

  lemma ProgressStep(before: seq<Contract>, now: seq<Contract>, i: nat, anc: map<string, set<string>>, job: Contract)
    requires i < |before| && Progress(before, now, i, anc)
    requires before[i].jobId in anc && Resolved(before, anc, before[i], job)
    ensures Progress(before, now[i := job], i + 1, anc)
  {
    assert now[i := job][i+1..] == now[i..][1..] && before[i+1..] == before[i..][1..];
    assert now[i := job][..i+1] == now[..i] + [job];
    PrefixStep(before, now[..i], anc, job);
  }

  lemma ProgressDone(before: seq<Contract>, now: seq<Contract>, anc: map<string, set<string>>)
    requires Progress(before, now, |before|, anc)
    ensures AllResolved(before, now, anc)
  {
    assert now[..|before|] == now;
  }

  ghost predicate ResolvedPrefix(before: seq<Contract>, done: seq<Contract>, anc: map<string, set<string>>) {
    |done| <= |before| && forall n | 0 <= n < |done| :: ResolvedAt(before, done, anc, n)
  }

  ghost predicate ResolvedAt(before: seq<Contract>, done: seq<Contract>, anc: map<string, set<string>>, n: nat)
    requires n < |done| <= |before|
  {
    before[n].jobId in anc && Resolved(before, anc, before[n], done[n])
  }

  ghost predicate ProducedPrefix(before: seq<Contract>, i: nat, anc: map<string, set<string>>)
    requires i <= |before|
  {
    forall n | 0 <= n < i :: Produced(before, anc, before[n])
  }

  lemma PrefixStep(before: seq<Contract>, done: seq<Contract>, anc: map<string, set<string>>, job: Contract)
    requires |done| < |before| && ResolvedPrefix(before, done, anc)
    requires before[|done|].jobId in anc && Resolved(before, anc, before[|done|], job)
    ensures ResolvedPrefix(before, done + [job], anc)
  {
    var longer := done + [job];
    forall n | 0 <= n < |longer| ensures ResolvedAt(before, longer, anc, n) {
      if n < |done| { assert ResolvedAt(before, done, anc, n); }
    }
  }

  lemma ProducedAll(jobs: seq<Contract>, anc: map<string, set<string>>)
    requires Ids(jobs) <= anc.Keys
    ensures ProducedPrefix(jobs, |jobs|, anc) <==> AllProduced(jobs, anc)
  {
    assert forall n | 0 <= n < |jobs| :: jobs[n] in jobs && jobs[n].jobId in Ids(jobs);
    if ProducedPrefix(jobs, |jobs|, anc) {
      forall j, name | j in jobs && name in j.consumes ensures HasProducer(jobs, anc[j.jobId], name) {
        var n :| 0 <= n < |jobs| && jobs[n] == j;
        assert Produced(jobs, anc, jobs[n]);
      }
    }
  }

  /**
   Listing the jobs in another order, or filling the memo in another order, leaves the sources of
   every job the same.
   */
  lemma SourcesOrderFree(jobs: seq<Contract>, jobs': seq<Contract>, anc: map<string, set<string>>,
                         anc': map<string, set<string>>, c: Contract, a: map<string, string>, b: map<string, string>)
    requires multiset(jobs) == multiset(jobs') && UniqueIds(jobs) && Acyclic(AllDeps(jobs))
    requires AncestorMap(jobs, anc) && AncestorMap(jobs', anc') && c in jobs && c in jobs'
    requires AreSources(jobs, anc[c.jobId], c.consumes, a) && AreSources(jobs', anc'[c.jobId], c.consumes, b)
    ensures a == b
  {
    SameClosure(jobs, jobs', anc, anc', c.jobId);
    SameMembers(jobs, jobs');
    AreSourcesUnique(jobs, jobs', anc[c.jobId], c.consumes, a, b);
  }

  lemma SameClosure(jobs: seq<Contract>, jobs': seq<Contract>, anc: map<string, set<string>>,
                    anc': map<string, set<string>>, id: string)
    requires multiset(jobs) == multiset(jobs') && UniqueIds(jobs) && Acyclic(AllDeps(jobs))
    requires AncestorMap(jobs, anc) && AncestorMap(jobs', anc') && id in anc && id in anc'
    ensures anc[id] == anc'[id]
  {
    SameMembers(jobs, jobs');
    ClosureUnique(AllDeps(jobs), id, anc[id], anc'[id]);
  }

  lemma ClosureUnique(r: Edges<string>, id: string, s: set<string>, t: set<string>)
    requires Sound(r, id, s) && Complete(r, id, s) && Sound(r, id, t) && Complete(r, id, t)
    ensures s == t
  {
  }

  lemma SameMembers(jobs: seq<Contract>, jobs': seq<Contract>)
    requires multiset(jobs) == multiset(jobs')
    ensures (forall j :: j in jobs <==> j in jobs') && AllDeps(jobs) == AllDeps(jobs')
    ensures UniqueIds(jobs) <==> UniqueIds(jobs')
  {
    forall j ensures j in jobs <==> j in jobs' {
      assert j in jobs <==> j in multiset(jobs);
      assert j in jobs' <==> j in multiset(jobs');
    }
    assert |jobs| == |multiset(jobs)| && |jobs'| == |multiset(jobs')|;
    assert Ids(jobs) == Ids(jobs');
    IdsCount(jobs);
    IdsCount(jobs');
  }
}
