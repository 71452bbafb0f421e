/**
 Dependency levels of a plan: Kahn's algorithm, layer by layer
 (internal/contracts/plan.go, TopologicalLevels).
 */
module Levels {
  import opened Results
  import opened Order
  import opened Digraph

  /** The fields of a contract that planning reads or writes. */
  datatype Contract = Contract(
    jobId: string, root: string, riskClass: string, maxTokens: int,
    write: seq<string>, intendedWrites: seq<string>, dependsOn: seq<string>,
    produces: seq<string>, consumes: seq<string>, artifactSources: map<string, string>)

  function Ids(jobs: seq<Contract>): set<string> {
    set j | j in jobs :: j.jobId
  }

  predicate UniqueIds(jobs: seq<Contract>) {
    forall i, j | 0 <= i < j < |jobs| :: jobs[i].jobId != jobs[j].jobId
  }

  /** The depends_on graph restricted to ids that name a job: (dependency, dependent). */
  function DependsOn(jobs: seq<Contract>): Edges<string> {
    set j, d | j in jobs && d in j.dependsOn && d in Ids(jobs) :: (d, j.jobId)
  }

  function JobIds(level: seq<Contract>): (r: seq<string>)
    ensures |r| == |level| && forall i | 0 <= i < |r| :: r[i] == level[i].jobId
  {
    seq(|level|, i requires 0 <= i < |level| => level[i].jobId)
  }

  /** What a level partition promises, without mentioning how it was found. */
  ghost predicate IsLayering(jobs: seq<Contract>, levels: seq<seq<Contract>>) {
    && multiset(Flatten(levels)) == multiset(jobs)
    && (forall k | 0 <= k < |levels| :: levels[k] != [] && StrictlySorted(JobIds(levels[k])))
    && (forall k, c | 0 <= k < |levels| && c in levels[k] :: HasHeight(DependsOn(jobs), c.jobId, k))
  }

  /** The ids whose dependency chains are bounded. */
  ghost function Grounded(jobs: seq<Contract>): set<string> {
    set x | x in Ids(jobs) && exists k: nat :: HasHeight(DependsOn(jobs), x, k)
  }

  // ---- the counters of the algorithm, as functions of the edge list

  /** Edges into `id` whose source is not done yet. */
  ghost function Pending(edges: seq<(string, string)>, done: set<string>, id: string): nat {
    if edges == [] then 0
    else
      var e := edges[|edges|-1];
      Pending(edges[..|edges|-1], done, id) + if e.1 == id && e.0 !in done then 1 else 0
  }

  /** The targets of the edges out of `d`, in edge order. */
  ghost function Targets(edges: seq<(string, string)>, d: string): seq<string> {
    if edges == [] then []
    else
      var e := edges[|edges|-1];
      Targets(edges[..|edges|-1], d) + if e.0 == d then [e.1] else []
  }

  function Get(m: map<string, seq<string>>, k: string): seq<string> {
    if k in m then m[k] else []
  }

  lemma {:induction false} PendingZero(edges: seq<(string, string)>, done: set<string>, id: string)
    ensures Pending(edges, done, id) == 0 <==> forall e | e in edges && e.1 == id :: e.0 in done
  {
    if edges != [] {
      var n := |edges| - 1;
      PendingZero(edges[..n], done, id);
      assert edges == edges[..n] + [edges[n]];
    }
  }

  lemma {:induction false} PendingAfter(edges: seq<(string, string)>, done: set<string>, x: string, id: string)
    requires x !in done
    ensures Pending(edges, done, id) == Pending(edges, done + {x}, id) + multiset(Targets(edges, x))[id]
  {
    if edges != [] {
      PendingAfter(edges[..|edges|-1], done, x, id);
    }
  }

  lemma {:induction false} TargetsAreTargets(edges: seq<(string, string)>, d: string, x: string)
    requires x in Targets(edges, d)
    ensures (d, x) in edges
  {
    var n := |edges| - 1;
    assert edges == edges[..n] + [edges[n]];
    if x in Targets(edges[..n], d) {
      TargetsAreTargets(edges[..n], d, x);
    }
  }

  ghost predicate Tables(jobs: seq<Contract>, byId: map<string, Contract>, indegree: map<string, nat>,
                         dependents: map<string, seq<string>>, edges: seq<(string, string)>)
  {
    && byId.Keys == Ids(jobs) == indegree.Keys
    && (forall id | id in byId :: byId[id] in jobs && byId[id].jobId == id)
    && (forall e :: e in edges <==> e in DependsOn(jobs))
    && Counted(edges, indegree, dependents)
  }

  ghost predicate Counted(edges: seq<(string, string)>, indegree: map<string, nat>,
                          dependents: map<string, seq<string>>)
  {
    && (forall id | id in indegree :: indegree[id] == Pending(edges, {}, id))
    && (forall d :: Get(dependents, d) == Targets(edges, d))
  }

  lemma CountedStep(edges: seq<(string, string)>, indegree: map<string, nat>, dependents: map<string, seq<string>>,
                    d: string, j: string)
    requires Counted(edges, indegree, dependents) && j in indegree
    ensures Counted(edges + [(d, j)], indegree[j := indegree[j] + 1], dependents[d := Get(dependents, d) + [j]])
  {
    var longer := edges + [(d, j)];
    assert longer[..|longer|-1] == edges;
    var dependents' := dependents[d := Get(dependents, d) + [j]];
    forall x ensures Get(dependents', x) == Targets(longer, x) {
      assert Targets(longer, x) == Targets(edges, x) + if x == d then [j] else [];
      assert Get(dependents', x) == Get(dependents, x) + if x == d then [j] else [];
    }
  }

  method IndexJobs(jobs: seq<Contract>) returns (byId: map<string, Contract>, indegree: map<string, nat>)
    ensures byId.Keys == Ids(jobs) == indegree.Keys
    ensures forall id | id in byId :: byId[id] in jobs && byId[id].jobId == id && indegree[id] == 0
  {
    byId, indegree := map[], map[];
    for i := 0 to |jobs|
      invariant byId.Keys == Ids(jobs[..i]) == indegree.Keys
      invariant forall id | id in byId :: byId[id] in jobs && byId[id].jobId == id && indegree[id] == 0
    {
      assert jobs[..i+1] == jobs[..i] + [jobs[i]];
      assert Ids(jobs[..i+1]) == Ids(jobs[..i]) + {jobs[i].jobId};
      byId := byId[jobs[i].jobId := jobs[i]];
      if jobs[i].jobId !in indegree {
        indegree := indegree[jobs[i].jobId := 0];
      }
    }
    assert jobs[..|jobs|] == jobs;
  }

  /** The edges contributed by the first `i` jobs and the first `n` dependencies of job `i`. */
  ghost predicate EdgesUpTo(jobs: seq<Contract>, i: nat, n: nat, edges: seq<(string, string)>)
    requires i <= |jobs|
    requires n <= if i < |jobs| then |jobs[i].dependsOn| else 0
  {
    forall e :: e in edges <==>
                e.0 in Ids(jobs) &&
                ((exists k :: 0 <= k < i && jobs[k].jobId == e.1 && e.0 in jobs[k].dependsOn) ||
                 (i < |jobs| && jobs[i].jobId == e.1 && e.0 in jobs[i].dependsOn[..n]))
  }

  method BuildTables(jobs: seq<Contract>)
    returns (byId: map<string, Contract>, indegree: map<string, nat>, dependents: map<string, seq<string>>,
             ghost edges: seq<(string, string)>)
    ensures Tables(jobs, byId, indegree, dependents, edges)
  {
    byId, indegree := IndexJobs(jobs);
    dependents, edges := map[], [];
    for i := 0 to |jobs|
      invariant EdgesUpTo(jobs, i, 0, edges)
      invariant indegree.Keys == Ids(jobs)
      invariant Counted(edges, indegree, dependents)
    {
      for n := 0 to |jobs[i].dependsOn|
        invariant EdgesUpTo(jobs, i, n, edges)
        invariant indegree.Keys == Ids(jobs)
        invariant Counted(edges, indegree, dependents)
      {
        var j, dep := jobs[i].jobId, jobs[i].dependsOn[n];
        EdgesStep(jobs, i, n, edges);
        if dep in byId {
          CountedStep(edges, indegree, dependents, dep, j);
          indegree := indegree[j := indegree[j] + 1];
          dependents := dependents[dep := Get(dependents, dep) + [j]];
          edges := edges + [(dep, j)];
        }
      }
      EdgesNextJob(jobs, i, edges);
    }
    EdgesComplete(jobs, edges);
  }

  lemma EdgesStep(jobs: seq<Contract>, i: nat, n: nat, edges: seq<(string, string)>)
    requires i < |jobs| && n < |jobs[i].dependsOn| && EdgesUpTo(jobs, i, n, edges)
    ensures var d := jobs[i].dependsOn[n];
            EdgesUpTo(jobs, i, n + 1, if d in Ids(jobs) then edges + [(d, jobs[i].jobId)] else edges)
  {
    var deps := jobs[i].dependsOn;
    assert deps[..n+1] == deps[..n] + [deps[n]];
  }

  lemma EdgesNextJob(jobs: seq<Contract>, i: nat, edges: seq<(string, string)>)
    requires i < |jobs| && EdgesUpTo(jobs, i, |jobs[i].dependsOn|, edges)
    ensures EdgesUpTo(jobs, i + 1, 0, edges)
  {
    assert jobs[i].dependsOn[..|jobs[i].dependsOn|] == jobs[i].dependsOn;
  }

  lemma EdgesComplete(jobs: seq<Contract>, edges: seq<(string, string)>)
    requires EdgesUpTo(jobs, |jobs|, 0, edges)
    ensures forall e :: e in edges <==> e in DependsOn(jobs)
  {
    forall e ensures e in edges <==> e in DependsOn(jobs) {
      if e in edges {
        var k :| 0 <= k < |jobs| && jobs[k].jobId == e.1 && e.0 in jobs[k].dependsOn;
        assert e == (e.0, e.1) && jobs[k] in jobs;
      }
    }
  }

  ghost predicate Reached(indegree0: map<string, nat>, indegree: map<string, nat>, next: set<string>) {
    && indegree.Keys == indegree0.Keys
    && (forall x | x in indegree :: indegree[x] <= indegree0[x])
    && (forall x :: x in next <==> x in indegree && indegree0[x] > 0 && indegree[x] == 0)
  }

  lemma PrefixCount(out: seq<string>, b: nat)
    requires b < |out|
    ensures multiset(out[..b+1]) == multiset(out[..b]) + multiset{out[b]}
    ensures multiset(out[..b])[out[b]] < multiset(out)[out[b]]
  {
    assert out == out[..b] + ([out[b]] + out[b+1..]);
    assert out[..b+1] == out[..b] + [out[b]];
  }

  /** Decrements every dependent of one finished job. */
  method DrainJob(out: seq<string>, start: map<string, nat>, next0: set<string>, ghost indegree0: map<string, nat>)
    returns (indegree: map<string, nat>, next: set<string>)
    requires Reached(indegree0, start, next0)
    requires forall x | x in out :: x in start && start[x] >= multiset(out)[x]
    ensures Reached(indegree0, indegree, next)
    ensures forall x | x in start :: indegree[x] + multiset(out)[x] == start[x]
  {
    indegree, next := start, next0;
    for b := 0 to |out|
      invariant Reached(indegree0, indegree, next)
      invariant forall x | x in start :: indegree[x] + multiset(out[..b])[x] == start[x]
    {
      var dep := out[b];
      PrefixCount(out, b);
      indegree := indegree[dep := indegree[dep] - 1];
      if indegree[dep] == 0 {
        next := next + {dep};
      }
    }
    assert out[..|out|] == out;
  }

  /** Decrements the dependents of a whole level and collects the ids that reach zero. */
  method DrainLevel(ids: seq<string>, indegree0: map<string, nat>, dependents: map<string, seq<string>>,
                    ghost edges: seq<(string, string)>, ghost done: set<string>)
    returns (indegree: map<string, nat>, next: set<string>)
    requires Distinct(ids) && forall x | x in ids :: x !in done
    requires forall e | e in edges :: e.1 in indegree0
    requires forall d :: Get(dependents, d) == Targets(edges, d)
    requires forall x | x in indegree0 :: indegree0[x] == Pending(edges, done, x)
    ensures Reached(indegree0, indegree, next)
    ensures forall x | x in indegree :: indegree[x] == Pending(edges, done + Elements(ids), x)
  {
    indegree, next := indegree0, {};
    assert done + Elements(ids[..0]) == done;
    for a := 0 to |ids|
      invariant Reached(indegree0, indegree, next)
      invariant forall x | x in indegree :: indegree[x] == Pending(edges, done + Elements(ids[..a]), x)
    {
      ghost var before, start := done + Elements(ids[..a]), indegree;
      assert ids[..a+1] == ids[..a] + [ids[a]];
      assert done + Elements(ids[..a+1]) == before + {ids[a]};
      var out := Get(dependents, ids[a]);
      forall x | x in start ensures start[x] == Pending(edges, before + {ids[a]}, x) + multiset(out)[x] {
        PendingAfter(edges, before, ids[a], x);
      }
      forall x | x in out ensures x in start {
        TargetsAreTargets(edges, ids[a], x);
      }
      indegree, next := DrainJob(out, indegree, next, indegree0);
    }
    assert ids[..|ids|] == ids;
  }

  /** The graph side of the loop: `done` ids have a height below `k`, `current` are the ready ones, at height `k`. */
  ghost predicate Frontier(r: Edges<string>, ids: set<string>, done: set<string>, current: set<string>,
                           h: map<string, nat>, k: nat)
  {
    && done <= ids && done == h.Keys
    && (forall x | x in done :: h[x] < k && HasHeight(r, x, h[x]))
    && (forall x | x in current :: HasHeight(r, x, k))
    && (forall x :: x in current <==> x in ids && x !in done && Finished(r, done, x))
  }

  /** All dependencies of `x` are in `done`. */
  ghost predicate Finished(r: Edges<string>, done: set<string>, x: string) {
    forall d | (d, x) in r :: d in done
  }

  /** The list side of the loop: `levels` holds the jobs of `done`, each at the level its height says. */
  ghost predicate Emitted(jobs: seq<Contract>, levels: seq<seq<Contract>>, h: map<string, nat>) {
    && (forall k | 0 <= k < |levels| :: AtHeight(jobs, levels[k], h, k))
    && (forall x | x in h :: FoundAt(levels, h, x))
    && (forall k | 0 <= k < |levels| :: levels[k] != [] && StrictlySorted(JobIds(levels[k])))
  }

  ghost predicate AtHeight(jobs: seq<Contract>, level: seq<Contract>, h: map<string, nat>, k: nat) {
    forall c | c in level :: c in jobs && c.jobId in h && h[c.jobId] == k
  }

  ghost predicate FoundAt(levels: seq<seq<Contract>>, h: map<string, nat>, x: string)
    requires x in h
  {
    h[x] < |levels| && x in JobIds(levels[h[x]])
  }

  lemma UniqueSplit(jobs: seq<Contract>, n: nat)
    requires n + 1 == |jobs|
    ensures UniqueIds(jobs) <==> UniqueIds(jobs[..n]) && jobs[n].jobId !in Ids(jobs[..n])
  {
    var front := jobs[..n];
    if UniqueIds(jobs) {
      forall j | j in front ensures j.jobId != jobs[n].jobId {
        var i :| 0 <= i < n && front[i] == j;
        assert jobs[i] == j;
      }
    }
    if UniqueIds(front) && jobs[n].jobId !in Ids(front) {
      forall i, k | 0 <= i < k < |jobs| ensures jobs[i].jobId != jobs[k].jobId {
        assert jobs[i] == front[i] && front[i] in front;
        if k < n { assert jobs[k] == front[k]; }
      }
    }
  }

  lemma {:induction false} IdsCount(jobs: seq<Contract>)
    ensures |Ids(jobs)| <= |jobs|
    ensures |Ids(jobs)| == |jobs| <==> UniqueIds(jobs)
  {
    if jobs == [] {
      assert Ids(jobs) == {};
    } else {
      var n := |jobs| - 1;
      IdsCount(jobs[..n]);
      assert Ids(jobs) == Ids(jobs[..n]) + {jobs[n].jobId} by { assert jobs == jobs[..n] + [jobs[n]]; }
      assert UniqueIds(jobs) <==> UniqueIds(jobs[..n]) && jobs[n].jobId !in Ids(jobs[..n]) by { UniqueSplit(jobs, n); }
    }
  }

  /** Nothing is ready although ids remain: the rest wait for one another. */
  lemma Stuck(r: Edges<string>, ids: set<string>, done: set<string>, h: map<string, nat>, k: nat)
    requires Frontier(r, ids, done, {}, h, k)
    requires forall e | e in r :: e.0 in ids
    ensures done != ids ==> !Acyclic(r)
    ensures forall x | x in ids :: x in done <==> exists j: nat :: HasHeight(r, x, j)
  {
    var rest := ids - done;
    forall x | x in rest ensures WaitsIn(r, rest, x) {
      assert !Finished(r, done, x);
      var d :| (d, x) in r && d !in done;
      assert (d, x).0 in ids;
    }
    if rest != {} {
      StuckHasCycle(r, rest);
    }
    forall x, j: nat | x in rest ensures !HasHeight(r, x, j) {
      StuckHasNoHeight(r, rest, x, j);
    }
  }

  /** All ids are done: their heights rank the graph. */
  lemma AllDone(r: Edges<string>, ids: set<string>, current: set<string>, h: map<string, nat>, k: nat)
    requires Frontier(r, ids, ids, current, h, k)
    requires forall e | e in r :: e.0 in ids && e.1 in ids
    ensures Acyclic(r)
  {
    forall e | e in r ensures h[e.0] < h[e.1] {
      assert e == (e.0, e.1);
      HeightMonotone(r, e.0, e.1, h[e.0], h[e.1]);
    }
    RankedAcyclic(r, h);
  }

  lemma EmittedAll(jobs: seq<Contract>, levels: seq<seq<Contract>>, h: map<string, nat>)
    requires Emitted(jobs, levels, h) && UniqueIds(jobs) && h.Keys == Ids(jobs)
    ensures multiset(Flatten(levels)) == multiset(jobs)
  {
    assert forall k | 0 <= k < |levels| :: AtHeight(jobs, levels[k], h, k);
    FlattenDistinct(levels, h);
    forall c ensures c in Flatten(levels) <==> c in jobs {
      FlattenMember(levels, c);
      if c in jobs {
        var k := h[c.jobId];
        assert FoundAt(levels, h, c.jobId);
        var i :| 0 <= i < |levels[k]| && JobIds(levels[k])[i] == c.jobId;
        assert levels[k][i] in jobs;
      }
    }
    SameElementsSameMultiset(Flatten(levels), jobs);
  }

  lemma SubsetFull<T>(a: set<T>, b: set<T>)
    requires a <= b && |a| >= |b|
    ensures a == b
  {
    assert b == a + (b - a);
  }

  /** Strictly sorted levels at different heights share no job. */
  lemma {:induction false} FlattenDistinct(levels: seq<seq<Contract>>, h: map<string, nat>)
    requires forall k | 0 <= k < |levels| :: StrictlySorted(JobIds(levels[k]))
    requires forall k, c | 0 <= k < |levels| && c in levels[k] :: c.jobId in h && h[c.jobId] == k
    ensures Distinct(Flatten(levels))
  {
    if levels != [] {
      var n := |levels| - 1;
      FlattenDistinct(levels[..n], h);
      forall c | c in Flatten(levels[..n]) ensures c !in levels[n] {
        FlattenMember(levels[..n], c);
        var k :| 0 <= k < n && c in levels[..n][k];
        assert c in levels[k] && h[c.jobId] == k;
      }
      StrictlySortedDistinct(JobIds(levels[n]));
      forall i, j | 0 <= i < j < |levels[n]| ensures levels[n][i] != levels[n][j] {
        assert JobIds(levels[n])[i] != JobIds(levels[n])[j];
      }
      DistinctConcat(Flatten(levels[..n]), levels[n]);
    }
  }

  ghost function Raise(h: map<string, nat>, current: set<string>, k: nat): map<string, nat> {
    h + map x | x in current :: k
  }

  /** Finishing the ready ids makes exactly `next` ready, one level up. */
  lemma FrontierStep(r: Edges<string>, ids: set<string>, done: set<string>, current: set<string>, h: map<string, nat>,
                     k: nat, next: set<string>)
    requires Frontier(r, ids, done, current, h, k)
    requires forall x :: x in next <==> x in ids && !Finished(r, done, x) && Finished(r, done + current, x)
    ensures Frontier(r, ids, done + current, next, Raise(h, current, k), k + 1)
  {
    var h' := Raise(h, current, k);
    forall x | x in next ensures HasHeight(r, x, k + 1) {
      var d :| (d, x) in r && d !in done;
      assert d in done + current;
      HeightStep(r, x, d, k, h');
    }
    forall x ensures x in next <==> x in ids && x !in done + current && Finished(r, done + current, x) {
      if x in next && x in done {
        NoPendingDone(r, ids, done, current, h, k, x);
      }
    }
  }

  /** A done id waits for nothing outside `done`: its height would not fit. */
  lemma NoPendingDone(r: Edges<string>, ids: set<string>, done: set<string>, current: set<string>, h: map<string, nat>,
                      k: nat, x: string)
    requires Frontier(r, ids, done, current, h, k)
    requires x in done && Finished(r, done + current, x)
    ensures Finished(r, done, x)
  {
    forall d | (d, x) in r ensures d in done {
      if d in current {
        HeightMonotone(r, d, x, k, h[x]);
      }
    }
  }

  lemma EmittedStep(jobs: seq<Contract>, levels: seq<seq<Contract>>, h: map<string, nat>, level: seq<Contract>,
                    ids: set<string>)
    requires Emitted(jobs, levels, h) && level != [] && StrictlySorted(JobIds(level))
    requires ids !! h.Keys && (forall x | x in ids :: x in JobIds(level))
    requires forall c | c in level :: c in jobs && c.jobId in ids
    ensures Emitted(jobs, levels + [level], Raise(h, ids, |levels|))
  {
    var longer, h' := levels + [level], Raise(h, ids, |levels|);
    forall k | 0 <= k < |longer| ensures AtHeight(jobs, longer[k], h', k) {
      if k < |levels| { assert AtHeight(jobs, levels[k], h, k); }
    }
    forall x | x in h' ensures FoundAt(longer, h', x) {
      if x in h { assert FoundAt(levels, h, x); }
    }
  }

  lemma StuckJobs(jobs: seq<Contract>, done: set<string>, h: map<string, nat>, k: nat)
    requires Frontier(DependsOn(jobs), Ids(jobs), done, {}, h, k) && |done| < |jobs|
    ensures !(UniqueIds(jobs) && Acyclic(DependsOn(jobs)))
    ensures done == Grounded(jobs)
  {
    Stuck(DependsOn(jobs), Ids(jobs), done, h, k);
    IdsCount(jobs);
  }

  lemma LayeredJobs(jobs: seq<Contract>, levels: seq<seq<Contract>>, done: set<string>, current: set<string>,
                    h: map<string, nat>)
    requires Frontier(DependsOn(jobs), Ids(jobs), done, current, h, |levels|) && |done| >= |jobs|
    requires Emitted(jobs, levels, h)
    ensures UniqueIds(jobs) && Acyclic(DependsOn(jobs)) && IsLayering(jobs, levels)
  {
    IdsCount(jobs);
    SubsetFull(done, Ids(jobs));
    AllDone(DependsOn(jobs), Ids(jobs), current, h, |levels|);
    EmittedAll(jobs, levels, h);
  }

  /** The contracts of one level, in the order of their ids. */
  method ReadyLevel(ghost jobs: seq<Contract>, current: set<string>, byId: map<string, Contract>)
    returns (ids: seq<string>, level: seq<Contract>)
    requires forall x | x in current :: x in byId && byId[x] in jobs && byId[x].jobId == x
    ensures Distinct(ids) && Elements(ids) == current
    ensures |level| == |current| && StrictlySorted(JobIds(level)) && JobIds(level) == ids
    ensures forall c | c in level :: c in jobs && c.jobId in current
  {
    ids := SortedKeys(current);
    StrictlySortedDistinct(ids);
    level := [];
    for i := 0 to |ids|
      invariant |level| == i
      invariant forall n | 0 <= n < i :: level[n] in jobs && level[n].jobId == ids[n] && ids[n] in current
    {
      assert ids[i] in Elements(ids);
      level := level + [byId[ids[i]]];
    }
  }

  lemma SizeOfUnion<T>(a: set<T>, b: set<T>)
    requires a !! b
    ensures |a + b| == |a| + |b|
  {
  }

  method TopologicalLevels(jobs: seq<Contract>) returns (res: Result<seq<seq<Contract>>, nat>)
    ensures res.Ok? <==> UniqueIds(jobs) && Acyclic(DependsOn(jobs))
    ensures res.Ok? ==> IsLayering(jobs, res.value)
    ensures res.Err? ==> res.error == |jobs| - |Grounded(jobs)|
  {
    var byId, indegree, dependents, edges := BuildTables(jobs);
    var current := set id | id in indegree && indegree[id] == 0;
    var levels: seq<seq<Contract>> := [];
    var remaining := |jobs|;
    ghost var done: set<string>, h: map<string, nat> := {}, map[];
    ReadyAtStart(DependsOn(jobs), edges, Ids(jobs), indegree);
    while remaining > 0
      invariant Layered(jobs, DependsOn(jobs), Ids(jobs), edges, levels, done, current, h, indegree)
      invariant remaining == |jobs| - |done|
      decreases remaining
    {
      if current == {} {
        StuckJobs(jobs, done, h, |levels|);
        return Err(remaining);
      }
      indegree, levels, current, done, h :=
        EmitLevel(jobs, DependsOn(jobs), Ids(jobs), byId, dependents, indegree, levels, current, edges, done, h);
      remaining := remaining - |levels[|levels|-1]|;
    }
    LayeredJobs(jobs, levels, done, current, h);
    return Ok(levels);
  }

  /** The loop invariant of TopologicalLevels. */
  ghost predicate Layered(jobs: seq<Contract>, r: Edges<string>, ids: set<string>, edges: seq<(string, string)>,
                          levels: seq<seq<Contract>>, done: set<string>, current: set<string>, h: map<string, nat>,
                          indegree: map<string, nat>)
  {
    && Frontier(r, ids, done, current, h, |levels|)
    && Emitted(jobs, levels, h)
    && indegree.Keys == ids
    && forall x | x in indegree :: indegree[x] == Pending(edges, done, x)
  }

  /** One round of the loop: sort the ready ids, emit them as a level, and find the next ready ids. */
  method EmitLevel(ghost jobs: seq<Contract>, ghost r: Edges<string>, ghost ids: set<string>,
                   byId: map<string, Contract>, dependents: map<string, seq<string>>,
                   indegree0: map<string, nat>, levels0: seq<seq<Contract>>, current: set<string>,
                   ghost edges: seq<(string, string)>, ghost done0: set<string>, ghost h0: map<string, nat>)
    returns (indegree: map<string, nat>, levels: seq<seq<Contract>>, next: set<string>,
             ghost done: set<string>, ghost h: map<string, nat>)
    requires Layered(jobs, r, ids, edges, levels0, done0, current, h0, indegree0) && current != {}
    requires byId.Keys == ids && forall x | x in byId :: byId[x] in jobs && byId[x].jobId == x
    requires (forall e :: e in edges <==> e in r) && forall e | e in r :: e.1 in ids
    requires forall d :: Get(dependents, d) == Targets(edges, d)
    ensures Layered(jobs, r, ids, edges, levels, done, next, h, indegree)
    ensures |levels| == |levels0| + 1 && |done| == |done0| + |levels[|levels0|]| && levels[|levels0|] != []
  {
    var ready, level := ReadyLevel(jobs, current, byId);
    indegree, next := DrainLevel(ready, indegree0, dependents, edges, done0);
    levels := levels0 + [level];
    done, h := done0 + current, Raise(h0, current, |levels0|);
    LevelSize(r, ids, done0, current, h0, |levels0|, level);
    EmittedNext(jobs, r, ids, levels0, done0, current, h0, level);
    FrontierAdvances(r, ids, edges, done0, current, h0, |levels0|, indegree0, indegree, next);
  }

  /** The list side of the invariant after one more level. */
  lemma EmittedNext(jobs: seq<Contract>, r: Edges<string>, ids: set<string>, levels: seq<seq<Contract>>,
                    done: set<string>, current: set<string>, h: map<string, nat>, level: seq<Contract>)
    requires Frontier(r, ids, done, current, h, |levels|) && Emitted(jobs, levels, h)
    requires level != [] && StrictlySorted(JobIds(level)) && Elements(JobIds(level)) == current
    requires forall c | c in level :: c in jobs && c.jobId in current
    ensures Emitted(jobs, levels + [level], Raise(h, current, |levels|))
  {
    forall x | x in current ensures x in JobIds(level) { assert x in Elements(JobIds(level)); }
    EmittedStep(jobs, levels, h, level, current);
  }

  lemma LevelSize(r: Edges<string>, ids: set<string>, done: set<string>, current: set<string>, h: map<string, nat>,
                  k: nat, level: seq<Contract>)
    requires Frontier(r, ids, done, current, h, k) && |level| == |current| && current != {}
    ensures level != [] && |done + current| == |done| + |level|
  {
    assert |current| != 0;
    SizeOfUnion(done, current);
  }

  lemma FrontierAdvances(r: Edges<string>, ids: set<string>, edges: seq<(string, string)>, done: set<string>,
                         current: set<string>, h: map<string, nat>, k: nat,
                         before: map<string, nat>, after: map<string, nat>, next: set<string>)
    requires Frontier(r, ids, done, current, h, k)
    requires forall e :: e in edges <==> e in r
    requires before.Keys == after.Keys == ids && Reached(before, after, next)
    requires forall x | x in before ::
             before[x] == Pending(edges, done, x) && after[x] == Pending(edges, done + current, x)
    ensures Frontier(r, ids, done + current, next, Raise(h, current, k), k + 1)
  {
    ReadyNext(r, edges, ids, done, current, before, after, next);
    FrontierStep(r, ids, done, current, h, k, next);
  }

  lemma PendingDeps(r: Edges<string>, edges: seq<(string, string)>, done: set<string>, x: string)
    requires forall e :: e in edges <==> e in r
    ensures Pending(edges, done, x) == 0 <==> Finished(r, done, x)
  {
    PendingZero(edges, done, x);
    if Finished(r, done, x) {
      forall e | e in edges && e.1 == x ensures e.0 in done {
        assert e == (e.0, x);
      }
    }
  }

  lemma ReadyAtStart(r: Edges<string>, edges: seq<(string, string)>, ids: set<string>, indegree: map<string, nat>)
    requires indegree.Keys == ids
    requires forall e :: e in edges <==> e in r
    requires forall x | x in indegree :: indegree[x] == Pending(edges, {}, x)
    ensures Frontier(r, ids, {}, set id | id in indegree && indegree[id] == 0, map[], 0)
  {
    forall x | x in indegree
      ensures indegree[x] == 0 <==> Finished(r, {}, x)
      ensures indegree[x] == 0 ==> HasHeight(r, x, 0)
    {
      PendingDeps(r, edges, {}, x);
      if indegree[x] == 0 { RootHeight(r, x); }
    }
  }

  lemma ReadyNext(r: Edges<string>, edges: seq<(string, string)>, ids: set<string>, done: set<string>,
                  current: set<string>, before: map<string, nat>, after: map<string, nat>, next: set<string>)
    requires before.Keys == after.Keys == ids
    requires forall e :: e in edges <==> e in r
    requires forall x | x in before ::
             before[x] == Pending(edges, done, x) && after[x] == Pending(edges, done + current, x)
    requires Reached(before, after, next)
    ensures forall x :: x in next <==> x in ids && !Finished(r, done, x) && Finished(r, done + current, x)
  {
    forall x | x in before
      ensures before[x] > 0 <==> !Finished(r, done, x)
      ensures after[x] == 0 <==> Finished(r, done + current, x)
    {
      PendingDeps(r, edges, done, x);
      PendingDeps(r, edges, done + current, x);
    }
  }
}
