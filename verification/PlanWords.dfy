/** The plan gate and the levels, read off the list of jobs: no graph, no table and no set of ids. */
module PlanWords {
  import opened Int64
  import opened Text
  import opened Order
  import opened Digraph
  import opened Levels
  import opened LevelFacts
  import opened Envelope
  import opened Artifacts
  import opened Plan

  // ---- ancestors

  /** Each job on the path depends on the one before it. */
  predicate JobPath(jobs: seq<Contract>, path: seq<Contract>) {
    && |path| >= 2 && (forall i | 0 <= i < |path| :: path[i] in jobs)
    && forall i | 0 <= i < |path| - 1 :: path[i].jobId in path[i+1].dependsOn
  }

  ghost predicate IsAncestor(jobs: seq<Contract>, a: string, b: string) {
    exists path: seq<Contract> :: JobPath(jobs, path) && path[0].jobId == a && path[|path|-1].jobId == b
  }

  lemma DependencyEdge(jobs: seq<Contract>, d: Contract, c: Contract)
    requires d in jobs && c in jobs && d.jobId in c.dependsOn
    ensures (d.jobId, c.jobId) in DependsOn(jobs)
  {
    assert d.jobId in Ids(jobs);
  }

  lemma PathReaches(jobs: seq<Contract>, path: seq<Contract>)
    requires JobPath(jobs, path)
    ensures Reaches(DependsOn(jobs), path[0].jobId, path[|path|-1].jobId)
  {
    var p := JobIds(path);
    forall i | 0 <= i < |p| - 1 ensures (p[i], p[i+1]) in DependsOn(jobs) {
      DependencyEdge(jobs, path[i], path[i+1]);
    }
    assert Chain(DependsOn(jobs), p);
  }

  lemma {:induction false} ChainPath(jobs: seq<Contract>, p: seq<string>) returns (path: seq<Contract>)
    requires Chain(DependsOn(jobs), p) && |p| >= 2
    ensures JobPath(jobs, path) && |path| == |p| && path[0].jobId == p[0] && path[|path|-1].jobId == p[|p|-1]
    decreases |p|
  {
    var n := |p| - 1;
    LastEdge(DependsOn(jobs), p);
    var c :| c in jobs && p[n-1] in c.dependsOn && c.jobId == p[n];
    if n == 1 {
      var first :| first in jobs && first.jobId == p[0];
      path := [first, c];
    } else {
      assert Chain(DependsOn(jobs), p[..n]);
      var front := ChainPath(jobs, p[..n]);
      path := front + [c];
    }
  }

  /** The closure of the dependency edges is exactly the ancestor relation. */
  lemma ReachesMeans(jobs: seq<Contract>, a: string, b: string)
    ensures Reaches(DependsOn(jobs), a, b) <==> IsAncestor(jobs, a, b)
  {
    if Reaches(DependsOn(jobs), a, b) {
      var p :| Chain(DependsOn(jobs), p) && |p| >= 2 && p[0] == a && p[|p|-1] == b;
      var path := ChainPath(jobs, p);
    }
    if path: seq<Contract> :| JobPath(jobs, path) && path[0].jobId == a && path[|path|-1].jobId == b {
      PathReaches(jobs, path);
    }
  }

  lemma CycleMeans(jobs: seq<Contract>)
    ensures Acyclic(DependsOn(jobs)) <==> forall a :: !IsAncestor(jobs, a, a)
  {
    forall a ensures IsAncestor(jobs, a, a) <==> Reaches(DependsOn(jobs), a, a) { ReachesMeans(jobs, a, a); }
    if !Acyclic(DependsOn(jobs)) {
      var p: seq<string> :| Chain(DependsOn(jobs), p) && |p| >= 2 && p[0] == p[|p|-1];
      assert Reaches(DependsOn(jobs), p[0], p[0]);
    }
  }

  // ---- the gate

  /** What the gate asks of the job at index `i` alone. */
  ghost predicate JobAccepted(jobs: seq<Contract>, i: nat, root: string, envelope: seq<string>,
                              validate: Contract -> bool)
    requires i < |jobs|
  {
    var j := jobs[i];
    && validate(j) && j.root == root && j.maxTokens > 0 && (exists c :: c in j.riskClass && !IsSpace(c))
    && (forall w | w in j.write || w in j.intendedWrites :: exists e :: e in envelope && PatternCovers(e, w))
  }

  /** Every dependency is another job of the plan. */
  ghost predicate DepsNamed(jobs: seq<Contract>, i: nat)
    requires i < |jobs|
  {
    forall d | d in jobs[i].dependsOn :: exists k :: 0 <= k < |jobs| && k != i && jobs[k].jobId == d
  }

  /** Every consumed artifact is declared by an ancestor. */
  ghost predicate ArtifactsMade(jobs: seq<Contract>, i: nat)
    requires i < |jobs|
  {
    forall name | name in jobs[i].consumes ::
      name != "" && exists p :: p in jobs && name in p.produces && IsAncestor(jobs, p.jobId, jobs[i].jobId)
  }

  lemma JobMeans(jobs: seq<Contract>, i: nat, root: string, envelope: seq<string>, validate: Contract -> bool)
    requires i < |jobs|
    ensures JobOk(jobs[i], root, envelope, validate) <==> JobAccepted(jobs, i, root, envelope, validate)
  {
    var j := jobs[i];
    assert Blank(j.riskClass) <==> !exists c :: c in j.riskClass && !IsSpace(c);
    if JobOk(j, root, envelope, validate) {
      forall w | w in j.write || w in j.intendedWrites ensures exists e :: e in envelope && PatternCovers(e, w) {
        assert Covered(envelope, w);
      }
    }
    if JobAccepted(jobs, i, root, envelope, validate) {
      forall w | w in j.write || w in j.intendedWrites ensures Covered(envelope, w) {}
    }
  }

  lemma DepsMean(jobs: seq<Contract>, i: nat)
    requires i < |jobs| && UniqueIds(jobs)
    ensures DepsOk(Ids(jobs), jobs[i].jobId, jobs[i].dependsOn) <==> DepsNamed(jobs, i)
  {
    forall d ensures d != jobs[i].jobId && d in Ids(jobs) <==>
                     exists k :: 0 <= k < |jobs| && k != i && jobs[k].jobId == d
    {
      if d != jobs[i].jobId && d in Ids(jobs) {
        var j :| j in jobs && j.jobId == d;
        var k :| 0 <= k < |jobs| && jobs[k] == j;
        assert k != i;
      }
    }
  }

  lemma ArtifactsMean(jobs: seq<Contract>, i: nat)
    requires i < |jobs|
    ensures (forall name | name in jobs[i].consumes :: HasAncestorProducer(jobs, name, jobs[i].jobId)) <==>
            ArtifactsMade(jobs, i)
  {
    var id := jobs[i].jobId;
    forall p ensures Reaches(DependsOn(jobs), p, id) <==> IsAncestor(jobs, p, id) { ReachesMeans(jobs, p, id); }
    forall name | name in jobs[i].consumes
      ensures HasAncestorProducer(jobs, name, id) <==>
              name != "" && exists p :: p in jobs && name in p.produces && IsAncestor(jobs, p.jobId, id)
    {
      if HasAncestorProducer(jobs, name, id) {
        var p :| Produces(jobs, name, p) && Reaches(DependsOn(jobs), p, id);
        var j :| j in jobs && j.jobId == p && name in j.produces;
        assert IsAncestor(jobs, j.jobId, id);
      }
      if name != "" && exists p :: p in jobs && name in p.produces && IsAncestor(jobs, p.jobId, id) {
        var j :| j in jobs && name in j.produces && IsAncestor(jobs, j.jobId, id);
        assert Produces(jobs, name, j.jobId);
      }
    }
  }

  lemma AllJobsMean(jobs: seq<Contract>, root: string, envelope: seq<string>, validate: Contract -> bool)
    ensures (forall j | j in jobs :: JobOk(j, root, envelope, validate)) <==>
            forall i | 0 <= i < |jobs| :: JobAccepted(jobs, i, root, envelope, validate)
  {
    forall i | 0 <= i < |jobs|
      ensures JobOk(jobs[i], root, envelope, validate) <==> JobAccepted(jobs, i, root, envelope, validate)
    {
      JobMeans(jobs, i, root, envelope, validate);
    }
  }

  lemma AllDepsMean(jobs: seq<Contract>)
    requires UniqueIds(jobs)
    ensures KnownDeps(jobs, Ids(jobs)) <==> forall i | 0 <= i < |jobs| :: DepsNamed(jobs, i)
  {
    forall i | 0 <= i < |jobs| ensures DepsOk(Ids(jobs), jobs[i].jobId, jobs[i].dependsOn) <==> DepsNamed(jobs, i) {
      DepsMean(jobs, i);
    }
  }

  lemma AllArtifactsMean(jobs: seq<Contract>)
    ensures ConsumesFromAncestors(jobs) <==> forall i | 0 <= i < |jobs| :: ArtifactsMade(jobs, i)
  {
    forall i | 0 <= i < |jobs|
      ensures (forall name | name in jobs[i].consumes :: HasAncestorProducer(jobs, name, jobs[i].jobId)) <==>
              ArtifactsMade(jobs, i)
    {
      ArtifactsMean(jobs, i);
    }
  }

  /** The documented conditions on a plan, job by job. */
  lemma PlanMeans(jobs: seq<Contract>, root: string, envelope: seq<string>, maxTotal: int, validate: Contract -> bool)
    ensures PlanOk(jobs, root, envelope, maxTotal, validate) <==>
            && |jobs| > 0 && maxTotal > 0 && |envelope| > 0 && Wrap64(TotalTokens(jobs)) <= maxTotal
            && (forall i, k | 0 <= i < k < |jobs| :: jobs[i].jobId != jobs[k].jobId)
            && (forall i | 0 <= i < |jobs| :: JobAccepted(jobs, i, root, envelope, validate))
            && (forall i | 0 <= i < |jobs| :: DepsNamed(jobs, i))
            && (forall i | 0 <= i < |jobs| :: ArtifactsMade(jobs, i))
            && (forall a :: !IsAncestor(jobs, a, a))
  {
    CycleMeans(jobs);
    AllJobsMean(jobs, root, envelope, validate);
    AllArtifactsMean(jobs);
    if UniqueIds(jobs) { AllDepsMean(jobs); }
  }

  // ---- the levels

  lemma EarlierLevel(jobs: seq<Contract>, levels: seq<seq<Contract>>, k: nat, c: Contract, d: Contract)
    returns (m: nat)
    requires IsLayering(jobs, levels) && k < |levels| && c in levels[k] && d in jobs && d.jobId in c.dependsOn
    ensures m < k && d in levels[m]
  {
    m := LevelOf(jobs, levels, d);
    LevelMembers(jobs, levels, c, k);
    LevelMembers(jobs, levels, d, m);
    DependencyEdge(jobs, d, c);
    HeightMonotone(DependsOn(jobs), d.jobId, c.jobId, m, k);
  }

  lemma LevelOf(jobs: seq<Contract>, levels: seq<seq<Contract>>, c: Contract) returns (k: nat)
    requires IsLayering(jobs, levels) && c in jobs
    ensures k < |levels| && c in levels[k]
  {
    InSomeLevel(jobs, levels, c);
    k :| 0 <= k < |levels| && c in levels[k];
  }

  lemma EdgeJob(jobs: seq<Contract>, a: string, c: Contract) returns (d: Contract)
    requires UniqueIds(jobs) && c in jobs && (a, c.jobId) in DependsOn(jobs)
    ensures d in jobs && d.jobId == a && a in c.dependsOn
  {
    var j :| j in jobs && a in j.dependsOn && j.jobId == c.jobId;
    SameIdSameJob(jobs, j, c);
    d :| d in jobs && d.jobId == a;
  }

  /** The job has a dependency in the level. */
  ghost predicate Rests(level: seq<Contract>, c: Contract) {
    exists d :: d in level && d.jobId in c.dependsOn
  }

  lemma NearestJob(jobs: seq<Contract>, c: Contract, j: nat, k: nat) returns (d: Contract)
    requires UniqueIds(jobs) && c in jobs && HasHeight(DependsOn(jobs), c.jobId, k) && k == j + 1
    ensures d in jobs && d.jobId in c.dependsOn && HasHeight(DependsOn(jobs), d.jobId, j)
  {
    var a := HeightBelow(DependsOn(jobs), c.jobId, k);
    d := EdgeJob(jobs, a, c);
  }

  lemma RestsBelow(jobs: seq<Contract>, levels: seq<seq<Contract>>, j: nat, k: nat, c: Contract)
    requires UniqueIds(jobs) && IsLayering(jobs, levels) && k == j + 1 && k < |levels| && c in levels[k]
    ensures Rests(levels[j], c)
  {
    LevelMembers(jobs, levels, c, k);
    var d := NearestJob(jobs, c, j, k);
    LevelMembers(jobs, levels, d, j);
  }

  lemma LevelAscends(jobs: seq<Contract>, levels: seq<seq<Contract>>, k: nat, a: nat, b: nat)
    requires IsLayering(jobs, levels) && k < |levels| && a < b < |levels[k]|
    ensures Less(levels[k][a].jobId, levels[k][b].jobId)
  {
    var ids := JobIds(levels[k]);
    assert StrictlySorted(ids) && Less(ids[a], ids[b]);
  }

  /**
   The levels without heights or edges: every job is in a level, all its dependencies are in earlier
   ones, one of them in the level just before, and a level lists its jobs by ascending id.
   */
  lemma LevelsMean(jobs: seq<Contract>, levels: seq<seq<Contract>>)
    requires UniqueIds(jobs) && IsLayering(jobs, levels)
    ensures forall c :: c in jobs <==> exists k :: 0 <= k < |levels| && c in levels[k]
    ensures forall k, c, d | 0 <= k < |levels| && c in levels[k] && d in jobs && d.jobId in c.dependsOn ::
              exists m :: 0 <= m < k && d in levels[m]
    ensures forall j, k, c | 0 <= j && k == j + 1 && k < |levels| && c in levels[k] :: Rests(levels[j], c)
    ensures forall k, a, b | 0 <= k < |levels| && 0 <= a < b < |levels[k]| ::
              Less(levels[k][a].jobId, levels[k][b].jobId)
  {
    forall c ensures c in jobs <==> exists k :: 0 <= k < |levels| && c in levels[k] {
      if c in jobs { var k := LevelOf(jobs, levels, c); }
      if k :| 0 <= k < |levels| && c in levels[k] { LevelMembers(jobs, levels, c, k); }
    }
    forall k, c, d | 0 <= k < |levels| && c in levels[k] && d in jobs && d.jobId in c.dependsOn
      ensures exists m :: 0 <= m < k && d in levels[m]
    {
      var m := EarlierLevel(jobs, levels, k, c, d);
    }
    forall j, k, c | 0 <= j && k == j + 1 && k < |levels| && c in levels[k] ensures Rests(levels[j], c) {
      RestsBelow(jobs, levels, j, k, c);
    }
    forall k, a, b | 0 <= k < |levels| && 0 <= a < b < |levels[k]|
      ensures Less(levels[k][a].jobId, levels[k][b].jobId)
    {
      LevelAscends(jobs, levels, k, a, b);
    }
  }
}
