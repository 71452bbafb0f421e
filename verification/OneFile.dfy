/** A file system with a single file, and its finished walk. */
module OneFile {
  import opened Results
  import opened Text
  import opened TreeWalk
  import opened TreeKeys

  /** The paths `base`, `base/x[0]`, ..., down to `m` names. */
  function Prefixes(base: Path, x: Path, m: nat): (r: set<Path>)
    requires m <= |x|
    ensures forall p :: p in r <==> |base| <= |p| <= |base| + m && p == base + x[..|p|-|base|]
  {
    var r := set k: nat | k <= m :: base + x[..k];
    assert forall p :: |base| <= |p| <= |base| + m && p == base + x[..|p|-|base|] ==> p in r;
    r
  }

  /** A chain of directories from `base` down to a single file at `base/x`. */
  function Chain(base: Path, x: Path): Files {
    map p | p in Prefixes(base, x, |x|) ::
      if |p| < |base| + |x| then Dir(Some([x[|p|-|base|]])) else Regular(Some("content"))
  }

  ghost function OneTrail(base: Path, x: Path): Trail
    requires x != []
  {
    Trail(map r | r in Prefixes([], x, |x| - 1) :: base + r, {FileAt(x, "content")}, map[])
  }

  /** The `k`-th node of the chain, and the `k`-th directory of its trail. */
  ghost predicate ChainAt(fs: Files, base: Path, x: Path, k: nat)
    requires k <= |x|
  {
    var p := base + x[..k];
    p in fs && fs[p] == if k < |x| then Dir(Some([x[k]])) else Regular(Some("content"))
  }

  ghost predicate WalkedAt(t: Trail, base: Path, x: Path, k: nat)
    requires k <= |x|
  {
    x[..k] in t.walked && t.walked[x[..k]] == base + x[..k]
  }

  /** `fs` contains the chain. */
  ghost predicate HasChain(fs: Files, base: Path, x: Path) {
    forall k: nat {:trigger ChainAt(fs, base, x, k)} | k <= |x| :: ChainAt(fs, base, x, k)
  }

  lemma TrailWalked(base: Path, x: Path, k: nat)
    requires k < |x|
    ensures WalkedAt(OneTrail(base, x), base, x, k)
  {
    assert [] + x[..k] == x[..k];
  }

  lemma TrailOnly(base: Path, x: Path, r: Path)
    requires x != [] && r in OneTrail(base, x).walked
    ensures |r| < |x| && r == x[..|r|]
  {
    assert [] + x[..|r|] == x[..|r|];
  }

  lemma ChainEntered(fs: Files, t: Trail, base: Path, x: Path, k: nat)
    requires k < |x| && ChainAt(fs, base, x, k) && WalkedAt(t, base, x, k)
    requires k > 0 ==> ChainAt(fs, base, x, k - 1) && WalkedAt(t, base, x, k - 1)
    ensures Entered(fs, t, x[..k])
  {
    if k > 0 {
      assert Parent(x[..k]) == x[..k-1] && Base(x[..k]) == x[k-1];
      assert base + x[..k-1] + [x[k-1]] == base + x[..k];
    }
  }

  lemma ChainRecorded(fs: Files, t: Trail, base: Path, x: Path, k: nat, n: string)
    requires k < |x| && ChainAt(fs, base, x, k) && ChainAt(fs, base, x, k + 1) && WalkedAt(t, base, x, k)
    requires if k + 1 == |x| then FileAt(x, "content") in t.facts else WalkedAt(t, base, x, k + 1)
    requires n in Names(fs, base + x[..k])
    ensures Recorded(fs, t, x[..k], n)
  {
    assert n == x[k] && x[..k] + [n] == x[..k+1] && base + x[..k] + [n] == base + x[..k+1];
    assert k + 1 == |x| ==> x[..k+1] == x;
  }

  lemma ChainHolds(fs: Files, t: Trail, base: Path, x: Path)
    requires x != [] && ChainAt(fs, base, x, |x| - 1) && ChainAt(fs, base, x, |x|) && WalkedAt(t, base, x, |x| - 1)
    ensures Holds(fs, t, FileAt(x, "content"))
  {
    var k := |x| - 1;
    assert x[..k+1] == x && base + x[..k] + [x[k]] == base + x[..k+1];
  }

  lemma OneEntered(fs: Files, base: Path, x: Path, r: Path)
    requires x != [] && HasChain(fs, base, x) && r in OneTrail(base, x).walked
    ensures Entered(fs, OneTrail(base, x), r)
  {
    TrailOnly(base, x, r);
    var k := |r|;
    TrailWalked(base, x, k);
    assert ChainAt(fs, base, x, k);
    if k > 0 {
      TrailWalked(base, x, k - 1);
      assert ChainAt(fs, base, x, k - 1);
    }
    ChainEntered(fs, OneTrail(base, x), base, x, k);
  }

  lemma OneRecorded(fs: Files, base: Path, x: Path, r: Path, n: string)
    requires x != [] && HasChain(fs, base, x) && r in OneTrail(base, x).walked
    requires n in Names(fs, OneTrail(base, x).walked[r])
    ensures Recorded(fs, OneTrail(base, x), r, n)
  {
    TrailOnly(base, x, r);
    var k := |r|;
    TrailWalked(base, x, k);
    if k + 1 < |x| { TrailWalked(base, x, k + 1); }
    assert ChainAt(fs, base, x, k) && ChainAt(fs, base, x, k + 1);
    ChainRecorded(fs, OneTrail(base, x), base, x, k, n);
  }

  lemma OneFileWalk(fs: Files, base: Path, x: Path)
    requires x != [] && HasChain(fs, base, x)
    ensures IsWalk(fs, base, OneTrail(base, x))
  {
    var t := OneTrail(base, x);
    assert WalkedAt(t, base, x, 0) && x[..0] == [] && base + [] == base by { TrailWalked(base, x, 0); }
    forall r | r in t.walked ensures Entered(fs, t, r) { OneEntered(fs, base, x, r); }
    assert Holds(fs, t, FileAt(x, "content")) by {
      TrailWalked(base, x, |x| - 1);
      assert ChainAt(fs, base, x, |x| - 1) && ChainAt(fs, base, x, |x|);
      ChainHolds(fs, t, base, x);
    }
    forall r, n | r in t.walked && n in Names(fs, t.walked[r]) ensures Recorded(fs, t, r, n) {
      OneRecorded(fs, base, x, r, n);
    }
  }

  lemma EmptyWalk(fs: Files, root: Path)
    requires root in fs && fs[root] == Dir(Some([]))
    ensures IsWalk(fs, root, Trail(map[[] := root], {}, map[]))
  {
  }

  lemma ChainPaths(base: Path, x: Path, p: Path)
    requires p in Chain(base, x)
    ensures base <= p && |p| - |base| <= |x| && p == base + x[..|p|-|base|]
  {
  }

  lemma ChainHasChain(base: Path, x: Path)
    ensures HasChain(Chain(base, x), base, x)
  {
    forall k: nat | k <= |x| ensures ChainAt(Chain(base, x), base, x, k) {
      assert base + x[..k] in Chain(base, x);
    }
  }

  /** The directory of the file is reached by the walk. */
  lemma ChainReach(fs: Files, base: Path, x: Path)
    requires x != [] && HasChain(fs, base, x)
    ensures Reach(fs, base, base + x[..|x|-1])
  {
    var t, k := OneTrail(base, x), |x| - 1;
    OneFileWalk(fs, base, x);
    TrailWalked(base, x, k);
    WalkedReachable(fs, base, t, {}, x[..k]);
  }

  lemma NamedPrefix(base: Path, x: Path, k: nat)
    requires PlaceOk(base) && RelOk(x) && k <= |x|
    ensures PlaceOk(base + x[..k])
  {
    forall n | n in base + x[..k] ensures Name(n) { assert n in base || n in x; }
  }

  lemma ChainNamed(base: Path, x: Path, p: Path)
    requires PlaceOk(base) && RelOk(x) && p in Chain(base, x)
    ensures PlaceOk(p) && !Chain(base, x)[p].Link? && forall n | n in Names(Chain(base, x), p) :: Name(n)
  {
    ChainPaths(base, x, p);
    ChainHasChain(base, x);
    var k := |p| - |base|;
    assert ChainAt(Chain(base, x), base, x, k);
    NamedPrefix(base, x, k);
    if k < |x| { assert Name(x[k]) by { assert x[k] in x; } }
  }
}
