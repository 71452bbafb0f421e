/**
 Transitive depends_on ancestors by memoised depth-first search
 (internal/contracts/plan.go, planAncestors).
 */
module Ancestors {
  import opened Digraph
  import opened Levels

  /** Every depends_on reference, dangling ones included: (dependency, dependent). */
  function AllDeps(jobs: seq<Contract>): Edges<string> {
    set j, d | j in jobs && d in j.dependsOn :: (d, j.jobId)
  }

  function DirectEdges(direct: map<string, seq<string>>): Edges<string> {
    set id, d | id in direct && d in direct[id] :: (d, id)
  }

  /** All members of `s` are ancestors of `id`. */
  ghost predicate Sound(r: Edges<string>, id: string, s: set<string>) {
    forall a | a in s :: Reaches(r, a, id)
  }

  /** All ancestors of `id` are in `s`. */
  ghost predicate Complete(r: Edges<string>, id: string, s: set<string>) {
    forall a | Reaches(r, a, id) :: a in s
  }

  /** The closure state of the search: the memo of finished ids and the ids on the call stack. */
  class Search {
    const direct: map<string, seq<string>>
    ghost const r: Edges<string>
    var memo: map<string, set<string>>
    var visiting: set<string>

    constructor (direct: map<string, seq<string>>)
      ensures this.direct == direct && memo == map[] && visiting == {} && Valid()
    {
      this.direct := direct;
      r := DirectEdges(direct);
      memo := map[];
      visiting := {};
    }

    /** Everything in the memo is an ancestor. */
    ghost predicate Valid()
      reads this
    {
      r == DirectEdges(direct) && forall k | k in memo :: Sound(r, k, memo[k])
    }

    ghost predicate MemoComplete()
      reads this
    {
      forall k | k in memo :: Complete(r, k, memo[k])
    }

    /** No id on the call stack can be met again: `id` is an ancestor of all of them and there is no cycle. */
    ghost predicate Unstacked(id: string)
      reads this
    {
      Acyclic(r) && forall v | v in visiting :: Reaches(r, id, v)
    }

    method Visit(id: string) returns (out: set<string>)
      requires Valid()
      modifies this
      ensures Valid() && Sound(r, id, out)
      ensures visiting == old(visiting) && old(memo.Keys) <= memo.Keys
      ensures id !in visiting ==> id in memo
      ensures old(MemoComplete()) && old(Unstacked(id)) ==> MemoComplete() && id in memo && memo[id] == out
      decreases |direct.Keys - visiting|, 1
    {
      if id in memo {
        return memo[id];
      }
      if id in visiting {
        if Unstacked(id) { AcyclicIrreflexive(r, id); }
        return {};
      }
      out := {};
      if id in direct {
        out := VisitDeps(id);
      } else {
        assert forall d :: (d, id) !in r;
        forall a ensures !Reaches(r, a, id) {
          if Reaches(r, a, id) { var b := ReachesSplit(r, a, id); }
        }
      }
      memo := memo[id := out];
    }

    /** The loop over the direct dependencies, with `id` on the stack. */
    method VisitDeps(id: string) returns (out: set<string>)
      requires Valid() && id in direct && id !in visiting
      modifies this
      ensures Valid() && Sound(r, id, out)
      ensures visiting == old(visiting) && old(memo.Keys) <= memo.Keys
      ensures old(MemoComplete()) && old(Unstacked(id)) ==> MemoComplete() && Complete(r, id, out)
      decreases |direct.Keys - visiting|, 0
    {
      ghost var exact := MemoComplete() && Unstacked(id);
      SmallerSet(direct.Keys - (visiting + {id}), direct.Keys - visiting);
      visiting := visiting + {id};
      out := {};
      for i := 0 to |direct[id]|
        invariant Valid() && Sound(r, id, out)
        invariant visiting == old(visiting) + {id} && old(memo.Keys) <= memo.Keys
        invariant exact ==> MemoComplete()
        invariant exact ==> Collected(r, direct[id][..i], out)
      {
        var dep := direct[id][i];
        StackReaches(r, dep, id, old(visiting));
        var more := Visit(dep);
        ThroughEdge(r, dep, id, more);
        if exact { CollectStep(r, direct[id], i, out, more); }
        out := out + {dep} + more;
      }
      visiting := visiting - {id};
      assert direct[id][..|direct[id]|] == direct[id];
      if exact { CoveredDeps(direct, id, out); }
    }
  }

  /** The given dependencies and all their ancestors are in `out`. */
  ghost predicate Collected(r: Edges<string>, deps: seq<string>, out: set<string>) {
    forall d | d in deps :: d in out && Complete(r, d, out)
  }

  lemma CollectStep(r: Edges<string>, deps: seq<string>, i: nat, out: set<string>, more: set<string>)
    requires i < |deps| && Collected(r, deps[..i], out) && Complete(r, deps[i], more)
    ensures Collected(r, deps[..i+1], out + {deps[i]} + more)
  {
    forall d | d in deps[..i+1] ensures d in out + {deps[i]} + more && Complete(r, d, out + {deps[i]} + more) {
      assert d == deps[i] || d in deps[..i];
    }
  }

  lemma SmallerSet<T>(a: set<T>, b: set<T>)
    requires a < b
    ensures |a| < |b|
  {
    assert b == a + (b - a) && b - a != {};
  }

  lemma StackReaches(r: Edges<string>, dep: string, id: string, stack: set<string>)
    requires (dep, id) in r
    ensures Reaches(r, dep, id)
    ensures forall v | v in stack && Reaches(r, id, v) :: Reaches(r, dep, v)
  {
    EdgeReaches(r, dep, id);
    forall v | v in stack && Reaches(r, id, v) ensures Reaches(r, dep, v) {
      ReachesTransitive(r, dep, id, v);
    }
  }

  lemma ThroughEdge(r: Edges<string>, dep: string, id: string, s: set<string>)
    requires (dep, id) in r && Sound(r, dep, s)
    ensures Sound(r, id, s)
  {
    EdgeReaches(r, dep, id);
    forall a | a in s ensures Reaches(r, a, id) {
      ReachesTransitive(r, a, dep, id);
    }
  }

  lemma CoveredDeps(direct: map<string, seq<string>>, id: string, out: set<string>)
    requires id in direct && Collected(DirectEdges(direct), direct[id], out)
    ensures Complete(DirectEdges(direct), id, out)
  {
    var r := DirectEdges(direct);
    forall a | Reaches(r, a, id) ensures a in out {
      var b := ReachesSplit(r, a, id);
      assert b in direct[id];
    }
  }

  method PlanAncestors(jobs: seq<Contract>) returns (memo: map<string, set<string>>)
    ensures Ids(jobs) <= memo.Keys
    ensures forall k | k in memo :: Sound(AllDeps(jobs), k, memo[k])
    ensures UniqueIds(jobs) && Acyclic(AllDeps(jobs)) ==> forall k | k in memo :: Complete(AllDeps(jobs), k, memo[k])
  {
    var direct := DirectDeps(jobs);
    var search := new Search(direct);
    ghost var r, exact := search.r, Acyclic(search.r);
    for i := 0 to |jobs|
      invariant search.Valid() && search.visiting == {}
      invariant exact ==> search.MemoComplete()
      invariant forall n | 0 <= n < i :: jobs[n].jobId in search.memo
    {
      var _ := search.Visit(jobs[i].jobId);
    }
    memo := search.memo;
    forall k | k in memo ensures Sound(AllDeps(jobs), k, memo[k]) {
      forall a | a in memo[k] ensures Reaches(AllDeps(jobs), a, k) {
        assert Reaches(r, a, k);
        ReachesMore(r, AllDeps(jobs), a, k);
      }
    }
  }

  lemma ReachesMore<T(!new)>(r: Edges<T>, s: Edges<T>, a: T, b: T)
    requires r <= s && Reaches(r, a, b)
    ensures Reaches(s, a, b)
  {
    var p :| Chain(r, p) && |p| >= 2 && p[0] == a && p[|p|-1] == b;
    assert Chain(s, p);
  }

  /** The map from id to depends_on; a repeated id keeps its last list. */
  method DirectDeps(jobs: seq<Contract>) returns (direct: map<string, seq<string>>)
    ensures direct.Keys == Ids(jobs)
    ensures DirectEdges(direct) <= AllDeps(jobs)
    ensures UniqueIds(jobs) ==> DirectEdges(direct) == AllDeps(jobs)
  {
    direct := map[];
    for i := 0 to |jobs|
      invariant DirectUpTo(jobs, i, direct)
    {
      DirectStep(jobs, i, direct);
      direct := direct[jobs[i].jobId := jobs[i].dependsOn];
    }
    DirectIsAll(jobs, direct);
  }

  /**
   `direct` holds, for every id among the first `i` jobs, the list of one of them, and the only one
   if ids are unique.
   */
  ghost predicate DirectUpTo(jobs: seq<Contract>, i: nat, direct: map<string, seq<string>>) {
    && i <= |jobs|
    && (forall k | k in direct :: DirectFrom(jobs, i, k, direct[k]))
    && (forall n | 0 <= n < i :: jobs[n].jobId in direct)
    && (UniqueIds(jobs) ==>
        forall n | 0 <= n < i && jobs[n].jobId in direct :: direct[jobs[n].jobId] == jobs[n].dependsOn)
  }

  ghost predicate DirectFrom(jobs: seq<Contract>, i: nat, id: string, deps: seq<string>)
    requires i <= |jobs|
  {
    exists n :: 0 <= n < i && jobs[n].jobId == id && jobs[n].dependsOn == deps
  }

  lemma DirectStep(jobs: seq<Contract>, i: nat, direct: map<string, seq<string>>)
    requires i < |jobs| && DirectUpTo(jobs, i, direct)
    ensures DirectUpTo(jobs, i + 1, direct[jobs[i].jobId := jobs[i].dependsOn])
  {
    var longer := direct[jobs[i].jobId := jobs[i].dependsOn];
    forall k | k in longer ensures DirectFrom(jobs, i + 1, k, longer[k]) {
      if k != jobs[i].jobId {
        assert DirectFrom(jobs, i, k, direct[k]);
      }
    }
  }

  lemma DirectIsAll(jobs: seq<Contract>, direct: map<string, seq<string>>)
    requires DirectUpTo(jobs, |jobs|, direct)
    ensures direct.Keys == Ids(jobs)
    ensures DirectEdges(direct) <= AllDeps(jobs)
    ensures UniqueIds(jobs) ==> DirectEdges(direct) == AllDeps(jobs)
  {
    forall k | k in direct ensures k in Ids(jobs) {
      assert DirectFrom(jobs, |jobs|, k, direct[k]);
    }
    forall e | e in DirectEdges(direct) ensures e in AllDeps(jobs) {
      assert DirectFrom(jobs, |jobs|, e.1, direct[e.1]);
      var n :| 0 <= n < |jobs| && jobs[n].jobId == e.1 && jobs[n].dependsOn == direct[e.1];
      assert jobs[n] in jobs && e == (e.0, jobs[n].jobId);
    }
  }
}
