/** What a level partition implies: it is unique, ordered by dependency, and conserves token budgets. */
module LevelFacts {
  import opened Order
  import opened Digraph
  import opened Levels

  /** A dependency, direct or not, sits in a strictly earlier level. */
  lemma {:induction false} AncestorsEarlier(r: Edges<string>, p: seq<string>, j: nat, k: nat)
    requires Chain(r, p) && |p| >= 2 && HasHeight(r, p[0], j) && HasHeight(r, p[|p|-1], k)
    ensures j < k
  {
    var q :| Chain(r, q) && |q| == j + 1 && q[j] == p[0];
    var w := q + p[1..];
    assert forall i | |q| <= i < |w| :: w[i] == p[i - j];
    forall i | 0 <= i < |w| - 1 ensures (w[i], w[i+1]) in r {
      if i >= j { assert (p[i-j], p[i-j+1]) in r; }
    }
    assert Chain(r, w) && w[|w|-1] == p[|p|-1];
  }

  /** Membership in a level is exactly being a job of that height. */
  lemma LevelMembers(jobs: seq<Contract>, levels: seq<seq<Contract>>, c: Contract, k: nat)
    requires IsLayering(jobs, levels) && k < |levels|
    ensures c in levels[k] <==> c in jobs && HasHeight(DependsOn(jobs), c.jobId, k)
  {
    FlattenMember(levels, c);
    assert c in Flatten(levels) <==> c in multiset(jobs);
    if c in jobs && HasHeight(DependsOn(jobs), c.jobId, k) {
      var j :| 0 <= j < |levels| && c in levels[j];
      HeightUnique(DependsOn(jobs), c.jobId, j, k);
    }
  }

  lemma NotLonger(jobs: seq<Contract>, levels: seq<seq<Contract>>, more: seq<seq<Contract>>)
    requires IsLayering(jobs, levels) && IsLayering(jobs, more)
    ensures |more| <= |levels|
  {
    if |more| > |levels| {
      var k := |levels|;
      var c := more[k][0];
      LevelMembers(jobs, more, c, k);
      FlattenMember(levels, c);
      assert c in multiset(Flatten(levels));
      var j :| 0 <= j < |levels| && c in levels[j];
      HeightUnique(DependsOn(jobs), c.jobId, j, k);
    }
  }

  lemma SameIdSameJob(jobs: seq<Contract>, a: Contract, b: Contract)
    requires UniqueIds(jobs) && a in jobs && b in jobs && a.jobId == b.jobId
    ensures a == b
  {
  }

  lemma SameLevel(jobs: seq<Contract>, a: seq<Contract>, b: seq<Contract>)
    requires UniqueIds(jobs) && forall c | c in a :: c in jobs
    requires forall c :: c in a <==> c in b
    requires StrictlySorted(JobIds(a)) && StrictlySorted(JobIds(b))
    ensures a == b
  {
    forall x ensures x in JobIds(a) <==> x in JobIds(b) {
      if x in JobIds(a) {
        var i :| 0 <= i < |a| && JobIds(a)[i] == x;
        assert a[i] in b;
        var j :| 0 <= j < |b| && b[j] == a[i];
        assert JobIds(b)[j] == x;
      }
      if x in JobIds(b) {
        var i :| 0 <= i < |b| && JobIds(b)[i] == x;
        assert b[i] in a;
        var j :| 0 <= j < |a| && a[j] == b[i];
        assert JobIds(a)[j] == x;
      }
    }
    StrictlySortedUnique(JobIds(a), JobIds(b));
    assert |a| == |b|;
    forall i | 0 <= i < |a| ensures a[i] == b[i] {
      assert JobIds(a)[i] == JobIds(b)[i];
      SameIdSameJob(jobs, a[i], b[i]);
    }
  }

  /**
   The levels depend only on which jobs there are: not on the order they are listed in, and not on
   the iteration order of any map on the way.
   */
  lemma LayeringUnique(jobs: seq<Contract>, jobs': seq<Contract>, a: seq<seq<Contract>>, b: seq<seq<Contract>>)
    requires UniqueIds(jobs) && multiset(jobs) == multiset(jobs')
    requires IsLayering(jobs, a) && IsLayering(jobs', b)
    ensures a == b
  {
    SameGraph(jobs, jobs');
    NotLonger(jobs, a, b);
    NotLonger(jobs, b, a);
    forall k | 0 <= k < |a| ensures a[k] == b[k] {
      forall c ensures c in a[k] <==> c in b[k] {
        LevelMembers(jobs, a, c, k);
        LevelMembers(jobs, b, c, k);
      }
      forall c | c in a[k] ensures c in jobs { LevelMembers(jobs, a, c, k); }
      SameLevel(jobs, a[k], b[k]);
    }
  }

  lemma SameGraph(jobs: seq<Contract>, jobs': seq<Contract>)
    requires multiset(jobs) == multiset(jobs')
    ensures (forall c :: c in jobs <==> c in jobs') && Ids(jobs) == Ids(jobs') && DependsOn(jobs) == DependsOn(jobs')
  {
    forall c ensures c in jobs <==> c in jobs' {
      assert c in jobs <==> c in multiset(jobs);
      assert c in jobs' <==> c in multiset(jobs');
    }
  }

  // ---- token budgets

  function TotalTokens(jobs: seq<Contract>): int {
    if jobs == [] then 0 else TotalTokens(jobs[..|jobs|-1]) + jobs[|jobs|-1].maxTokens
  }

  function LevelTokens(levels: seq<seq<Contract>>): int {
    if levels == [] then 0 else LevelTokens(levels[..|levels|-1]) + TotalTokens(levels[|levels|-1])
  }

  lemma {:induction false} TotalConcat(a: seq<Contract>, b: seq<Contract>)
    ensures TotalTokens(a + b) == TotalTokens(a) + TotalTokens(b)
    decreases |b|
  {
    if b == [] {
      assert a + b == a;
    } else {
      var n := |b| - 1;
      assert (a + b)[..|a + b| - 1] == a + b[..n];
      TotalConcat(a, b[..n]);
    }
  }

  lemma {:induction false} TotalRearranged(a: seq<Contract>, b: seq<Contract>)
    requires multiset(a) == multiset(b)
    ensures TotalTokens(a) == TotalTokens(b)
    decreases |a|
  {
    if a == [] {
      assert b == [] by { assert |b| == |multiset(b)|; }
    } else {
      var n := |a| - 1;
      assert a == a[..n] + [a[n]];
      assert a[n] in multiset(b);
      var i :| 0 <= i < |b| && b[i] == a[n];
      var rest := b[..i] + b[i+1..];
      WithoutOne(b, i);
      assert multiset(a[..n]) == multiset(a) - multiset{a[n]} == multiset(rest);
      TotalRearranged(a[..n], rest);
      TotalWithoutOne(b, i);
    }
  }

  lemma WithoutOne<T>(b: seq<T>, i: nat)
    requires i < |b|
    ensures multiset(b) == multiset(b[..i] + b[i+1..]) + multiset{b[i]}
  {
    assert b == b[..i] + ([b[i]] + b[i+1..]);
  }

  lemma TotalWithoutOne(b: seq<Contract>, i: nat)
    requires i < |b|
    ensures TotalTokens(b) == TotalTokens(b[..i] + b[i+1..]) + b[i].maxTokens
  {
    var front, back := b[..i+1], b[i+1..];
    TotalConcat(front, back);
    TotalConcat(b[..i], back);
    assert TotalTokens(b) == TotalTokens(front + back) by { assert b == front + back; }
    assert TotalTokens(front) == TotalTokens(b[..i]) + b[i].maxTokens by { assert front[..|front|-1] == b[..i]; }
  }

  lemma {:induction false} LevelsConcat(levels: seq<seq<Contract>>)
    ensures LevelTokens(levels) == TotalTokens(Flatten(levels))
  {
    if levels != [] {
      var n := |levels| - 1;
      LevelsConcat(levels[..n]);
      TotalConcat(Flatten(levels[..n]), levels[n]);
    }
  }

  /** Levelling neither creates nor loses budget. */
  lemma TokensConserved(jobs: seq<Contract>, levels: seq<seq<Contract>>)
    requires IsLayering(jobs, levels)
    ensures LevelTokens(levels) == TotalTokens(jobs)
  {
    LevelsConcat(levels);
    TotalRearranged(Flatten(levels), jobs);
  }
}
