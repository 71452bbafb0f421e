/** What a finished walk says about the file system it walked, and when two walks that recorded the same facts agree. */
module TreeDetermination {
  import opened Results
  import opened TreeWalk

  lemma {:induction false} ChainReached(fs: Files, root: Path, t: Trail, p: seq<Path>)
    returns (r: Path)
    requires IsWalk(fs, root, t) && DirChain(fs, p) && p[0] == root
    ensures r in t.walked && t.walked[r] == p[|p|-1]
    decreases |p|
  {
    if |p| == 1 {
      r := [];
    } else {
      var q := p[..|p|-1];
      var s := ChainReached(fs, root, t, q);
      var a, b := p[|p|-2], p[|p|-2+1];
      assert DirStep(fs, a, b);
      var n :| n in Names(fs, a) && a + [n] in fs && IsDir(fs, b) && (b == a + [n] || fs[a + [n]] == Link(Some(b)));
      assert Recorded(fs, t, s, n);
      if fs[a + [n]].Dir? {
        r := s + [n];
        assert Entered(fs, t, r);
        assert Parent(r) == s && Base(r) == n;
      } else {
        assert EnteredVia(fs, t, b);
        r := t.via[b];
      }
    }
  }

  /** A finished walk has entered every reachable directory, symlinked ones included. */
  lemma AllReached(fs: Files, root: Path, t: Trail, d: Path) returns (r: Path)
    requires IsWalk(fs, root, t) && Reach(fs, root, d)
    ensures r in t.walked && t.walked[r] == d
  {
    var p :| DirChain(fs, p) && p[0] == root && p[|p|-1] == d;
    r := ChainReached(fs, root, t, p);
  }

  /** A walk can only finish when everything below the root can be read. */
  lemma FinishedUnobstructed(fs: Files, root: Path, t: Trail)
    requires IsWalk(fs, root, t)
    ensures !Obstructed(fs, root)
  {
    forall d | Reach(fs, root, d) ensures !BadDir(fs, d) {
      var r := AllReached(fs, root, t, d);
      assert Entered(fs, t, r);
      forall i | 0 <= i < |fs[d].names.value| ensures !Unreadable(fs, d, fs[d].names.value[i]) {
        assert Recorded(fs, t, r, fs[d].names.value[i]);
        ReadableTargets(fs, root, t, r, fs[d].names.value[i]);
      }
    }
  }

  lemma ReadableTargets(fs: Files, root: Path, t: Trail, r: Path, n: string)
    requires IsWalk(fs, root, t) && r in t.walked && Recorded(fs, t, r, n)
    ensures !Unreadable(fs, t.walked[r], n)
  {
  }

  // ---- agreement

  /** Both walks finished, the facts of each are among `all`, and `all` holds for each. */
  ghost predicate Shared(fs: Files, root: Path, t: Trail, all: set<Fact>) {
    && IsWalk(fs, root, t) && t.facts <= all
    && forall f {:trigger HoldsSomewhere(fs, root, f)} | f in all :: HoldsSomewhere(fs, root, f)
  }

  ghost predicate HoldsSomewhere(fs: Files, root: Path, f: Fact) {
    exists t :: IsWalk(fs, root, t) && Holds(fs, t, f)
  }

  /** The place of a logical path is a property of the file system: two walks of it never disagree. */
  lemma {:induction false} OnePlace(fs: Files, root: Path, t: Trail, u: Trail, r: Path)
    requires IsWalk(fs, root, t) && IsWalk(fs, root, u) && r in t.walked && r in u.walked
    ensures t.walked[r] == u.walked[r]
    decreases |r|
  {
    assert Entered(fs, t, r) && Entered(fs, u, r);
    if r != [] { OnePlace(fs, root, t, u, Parent(r)); }
  }

  /** A fact recorded at an entered directory's entry holds at that very entry. */
  lemma HoldsHere(fs: Files, root: Path, t: Trail, all: set<Fact>, f: Fact)
    requires Shared(fs, root, t, all) && f in all && f.rel != [] && Parent(f.rel) in t.walked
    ensures Holds(fs, t, f)
  {
    assert HoldsSomewhere(fs, root, f);
    var u :| IsWalk(fs, root, u) && Holds(fs, u, f);
    OnePlace(fs, root, t, u, Parent(f.rel));
  }

  /** Entries that are symlinks on one side are the same symlinks on the other. */
  lemma LinkAgrees(fs: Files, gs: Files, root: Path, t: Trail, u: Trail, all: set<Fact>, r: Path, n: string,
                   target: Path)
    requires Shared(fs, root, t, all) && Shared(gs, root, u, all)
    requires r in t.walked && r in u.walked && n in Names(fs, t.walked[r])
    requires t.walked[r] + [n] in fs && fs[t.walked[r] + [n]] == Link(Some(target))
    ensures u.walked[r] + [n] in gs && gs[u.walked[r] + [n]] == Link(Some(target))
    ensures LinkAt(r + [n], target) in all
  {
    assert Recorded(fs, t, r, n);
    var f := LinkAt(r + [n], target);
    assert Parent(f.rel) == r && Base(f.rel) == n;
    HoldsHere(gs, root, u, all, f);
  }

  /** A logical path entered on both sides leads to the same place. */
  lemma {:induction false} PlaceAgrees(fs: Files, gs: Files, root: Path, t: Trail, u: Trail, all: set<Fact>, r: Path)
    requires Shared(fs, root, t, all) && Shared(gs, root, u, all) && r in t.walked && r in u.walked
    ensures t.walked[r] == u.walked[r]
    decreases |r|
  {
    assert Entered(fs, t, r) && Entered(gs, u, r);
    if r != [] {
      var p, n := Parent(r), Base(r);
      assert r == p + [n];
      PlaceAgrees(fs, gs, root, t, u, all, p);
      if fs[Spot(t, r)].Link? {
        LinkAgrees(fs, gs, root, t, u, all, p, n, t.walked[r]);
      } else if gs[Spot(u, r)].Link? {
        LinkAgrees(gs, fs, root, u, t, all, p, n, u.walked[r]);
      }
    }
  }

  /** The walk of `gs` that recorded `f` has entered the directory `f` is about, at the same place. */
  lemma Counterpart(fs: Files, gs: Files, root: Path, t: Trail, u: Trail, all: set<Fact>, f: Fact)
    requires Shared(fs, root, t, all) && Shared(gs, root, u, all) && f in t.facts && f in u.facts
    ensures Holds(fs, t, f) && Holds(gs, u, f) && Spot(t, f.rel) == Spot(u, f.rel)
  {
    assert Holds(fs, t, f) && Holds(gs, u, f);
    PlaceAgrees(fs, gs, root, t, u, all, Parent(f.rel));
  }

  /** A regular file recorded on both sides is the same file with the same content. */
  lemma FileAgrees(fs: Files, gs: Files, root: Path, t: Trail, u: Trail, all: set<Fact>, r: Path, n: string,
                   data: string)
    requires Shared(fs, root, t, all) && Shared(gs, root, u, all)
    requires FileAt(r + [n], data) in t.facts && FileAt(r + [n], data) in u.facts
    requires r in t.walked && t.walked[r] + [n] in fs && fs[t.walked[r] + [n]] == Regular(Some(data))
    ensures t.walked[r] + [n] in gs && gs[t.walked[r] + [n]] == Regular(Some(data))
  {
    var f := FileAt(r + [n], data);
    assert Parent(f.rel) == r && Base(f.rel) == n;
    Counterpart(fs, gs, root, t, u, all, f);
    var node := gs[Spot(u, f.rel)];
    if node.Link? {
      LinkAgrees(gs, fs, root, u, t, all, r, n, node.target.value);
    }
  }
}
