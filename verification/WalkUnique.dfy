/** The walk of a root is a function of the file system: the order of the entries decides it. */
module WalkUnique {
  import opened Results
  import opened Order
  import opened TreeWalk
  import opened TreeHash

  /** The two trails say the same about the logical path `p`. */
  ghost predicate Agree(t: Trail, u: Trail, p: Path) {
    && (p in t.walked <==> p in u.walked) && (p in t.walked && p in u.walked ==> t.walked[p] == u.walked[p])
    && (forall f: Fact | f.rel == p :: f in t.facts <==> f in u.facts)
  }

  ghost predicate AgreeBefore(t: Trail, u: Trail, p: Path) {
    forall q {:trigger Agree(t, u, q)} | RelLess(q, p) :: Agree(t, u, q)
  }

  lemma {:induction false} Least(s: set<Path>) returns (p: Path)
    requires s != {}
    ensures p in s && forall q | q in s :: !RelLess(q, p)
  {
    p :| p in s;
    if q :| q in s && RelLess(q, p) {
      var earlier := set x | x in s && RelLess(x, p);
      assert p !in earlier by { RelIrreflexive(p); }
      assert q in earlier && earlier < s;
      var least := Least(earlier);
      forall x | x in s ensures !RelLess(x, least) {
        if RelLess(x, least) { RelTransitive(x, least, p); }
      }
      p := least;
    }
  }

  lemma EntryAgrees(fs: Files, root: Path, t: Trail, u: Trail, p: Path)
    requires IsWalk(fs, root, t) && IsWalk(fs, root, u) && p != [] && AgreeBefore(t, u, p) && IsEntry(fs, t, p)
    ensures IsEntry(fs, u, p) && Spot(u, p) == Spot(t, p)
    ensures Recorded(fs, t, Parent(p), Base(p)) && Recorded(fs, u, Parent(p), Base(p)) && Parent(p) + [Base(p)] == p
  {
    assert Parent(p) + [Base(p)] == p;
    PrefixLess(Parent(p), [Base(p)]);
    assert Agree(t, u, Parent(p));
    assert Recorded(fs, t, Parent(p), Base(p)) && Recorded(fs, u, Parent(p), Base(p));
  }

  /** A symlink that leads into a directory in one walk does so in the other. */
  lemma LinkWalked(fs: Files, root: Path, t: Trail, u: Trail, p: Path)
    requires IsWalk(fs, root, t) && IsWalk(fs, root, u) && p != [] && AgreeBefore(t, u, p) && p in t.walked
    requires IsEntry(fs, t, p) && fs[Spot(t, p)].Link?
    ensures p in u.walked
  {
    EntryAgrees(fs, root, t, u, p);
    assert Entered(fs, t, p);
    var d := t.walked[p];
    assert EnteredVia(fs, u, d);
    var q := u.via[d];
    if q != p {
      assert RelLess(q, p) && Agree(t, u, q);
      ParentFirst(t, u, q, p);
      OneSymlink(fs, root, t, q);
    }
  }

  lemma OneSymlink(fs: Files, root: Path, t: Trail, q: Path)
    requires IsWalk(fs, root, t) && q in t.walked && IsEntry(fs, t, q) && fs[Spot(t, q)].Link?
    ensures t.walked[q] in t.via && t.via[t.walked[q]] == q
  {
    assert Entered(fs, t, q);
  }

  lemma ParentFirst(t: Trail, u: Trail, q: Path, p: Path)
    requires AgreeBefore(t, u, p) && RelLess(q, p) && q != []
    ensures Agree(t, u, Parent(q))
  {
    assert q == Parent(q) + [Base(q)];
    PrefixLess(Parent(q), [Base(q)]);
    RelTransitive(Parent(q), q, p);
  }

  lemma WalkedAgrees(fs: Files, root: Path, t: Trail, u: Trail, p: Path)
    requires IsWalk(fs, root, t) && IsWalk(fs, root, u) && AgreeBefore(t, u, p) && p in t.walked
    ensures p in u.walked && u.walked[p] == t.walked[p]
  {
    assert Entered(fs, t, p);
    if p != [] {
      EntryAgrees(fs, root, t, u, p);
      if fs[Spot(t, p)].Link? { LinkWalked(fs, root, t, u, p); }
      assert Entered(fs, u, p);
    }
  }

  lemma FactAgrees(fs: Files, root: Path, t: Trail, u: Trail, f: Fact)
    requires IsWalk(fs, root, t) && IsWalk(fs, root, u) && AgreeBefore(t, u, f.rel) && f in t.facts
    ensures f in u.facts
  {
    assert Holds(fs, t, f);
    EntryAgrees(fs, root, t, u, f.rel);
  }

  lemma AgreeNext(fs: Files, root: Path, t: Trail, u: Trail, p: Path)
    requires IsWalk(fs, root, t) && IsWalk(fs, root, u) && AgreeBefore(t, u, p)
    ensures Agree(t, u, p)
  {
    assert AgreeBefore(u, t, p) by { forall q | RelLess(q, p) ensures Agree(u, t, q) { assert Agree(t, u, q); } }
    if p in t.walked { WalkedAgrees(fs, root, t, u, p); }
    if p in u.walked { WalkedAgrees(fs, root, u, t, p); }
    forall f: Fact | f.rel == p ensures f in t.facts <==> f in u.facts {
      if f in t.facts { FactAgrees(fs, root, t, u, f); }
      if f in u.facts { FactAgrees(fs, root, u, t, f); }
    }
  }

  lemma Everywhere(fs: Files, root: Path, t: Trail, u: Trail, p: Path)
    requires IsWalk(fs, root, t) && IsWalk(fs, root, u)
    ensures Agree(t, u, p)
  {
    var differ := set q | q in Paths(t) + Paths(u) && !Agree(t, u, q);
    if differ != {} {
      var q := Least(differ);
      forall r | RelLess(r, q) ensures Agree(t, u, r) {
        if r in Paths(t) + Paths(u) { assert r !in differ; }
      }
      AgreeNext(fs, root, t, u, q);
      assert false;
    }
    if p in Paths(t) + Paths(u) { assert p !in differ; }
  }

  lemma ViaAgrees(fs: Files, root: Path, t: Trail, u: Trail, d: Path)
    requires IsWalk(fs, root, t) && IsWalk(fs, root, u) && d in t.via
    ensures d in u.via && u.via[d] == t.via[d]
  {
    assert EnteredVia(fs, t, d);
    var r := t.via[d];
    Everywhere(fs, root, t, u, r);
    Everywhere(fs, root, t, u, Parent(r));
    assert Entered(fs, u, r);
  }

  /** Two finished walks of one root are the same walk. */
  lemma WalkUnique(fs: Files, root: Path, t: Trail, u: Trail)
    requires IsWalk(fs, root, t) && IsWalk(fs, root, u)
    ensures t == u
  {
    forall p ensures Agree(t, u, p) { Everywhere(fs, root, t, u, p); }
    forall r ensures r in t.walked <==> r in u.walked { assert Agree(t, u, r); }
    forall r | r in t.walked ensures u.walked[r] == t.walked[r] { assert Agree(t, u, r); }
    forall d | d in t.via ensures d in u.via && u.via[d] == t.via[d] { ViaAgrees(fs, root, t, u, d); }
    forall d | d in u.via ensures d in t.via { ViaAgrees(fs, root, u, t, d); }
    assert t.walked == u.walked && t.via == u.via;
    forall f ensures f in t.facts <==> f in u.facts { assert Agree(t, u, f.rel); }
    assert t.facts == u.facts;
  }

  // ---- the list

  /** Two lists of the same facts are rearrangements of each other. */
  lemma ListsUnique(sha: string -> string, rootName: string, a: seq<Entry>, b: seq<Entry>, facts: set<Fact>)
    requires Lists(sha, rootName, a, facts) && Lists(sha, rootName, b, facts)
    ensures multiset(a) == multiset(b)
  {
    forall e ensures multiset(a)[e] == multiset(b)[e] { assert |Behind(sha, rootName, facts, e)| == multiset(a)[e]; }
  }

  /** All the entries of all roots are a function of the file system. */
  lemma {:induction false} PartsUnique(fs: FileSystem, roots: seq<string>, sha: string -> string,
                                       ts: seq<Option<Trail>>, us: seq<Option<Trail>>, ps: seq<seq<Entry>>,
                                       qs: seq<seq<Entry>>)
    requires Walks(fs, roots, ts) && Parts(sha, roots, ts, ps) && Walks(fs, roots, us) && Parts(sha, roots, us, qs)
    ensures ts == us && multiset(Flatten(ps)) == multiset(Flatten(qs))
  {
    if roots != [] {
      var n := |roots| - 1;
      FirstRoots(fs, roots, sha, ts, ps);
      FirstRoots(fs, roots, sha, us, qs);
      PartsUnique(fs, roots[..n], sha, ts[..n], us[..n], ps[..n], qs[..n]);
      assert ts == ts[..n] + [ts[n]] && us == us[..n] + [us[n]] && |ps[n]| >= 0 && |qs[n]| >= 0;
      if ts[n].Some? {
        WalkUnique(fs.nodes, fs.locate[roots[n]], ts[n].value, us[n].value);
        ListsUnique(sha, roots[n], ps[n], qs[n], ts[n].value.facts);
      }
    }
  }

  lemma FirstRoots(fs: FileSystem, roots: seq<string>, sha: string -> string, ts: seq<Option<Trail>>,
                   ps: seq<seq<Entry>>)
    requires roots != [] && Walks(fs, roots, ts) && Parts(sha, roots, ts, ps)
    ensures var n := |roots| - 1; Walks(fs, roots[..n], ts[..n]) && Parts(sha, roots[..n], ts[..n], ps[..n])
  {
    var n := |roots| - 1;
    forall i | 0 <= i < n
      ensures ts[..n][i] == ts[i] && ps[..n][i] == ps[i] && roots[..n][i] == roots[i]
    {
    }
  }

  ghost predicate KeyOrder(s: seq<Entry>) {
    forall i, j | 0 <= i < j < |s| :: !Less(s[j].key, s[i].key)
  }

  ghost predicate DistinctKeys(s: seq<Entry>) {
    forall i, j | 0 <= i < j < |s| :: s[i].key != s[j].key
  }

  lemma Tail(s: seq<Entry>)
    requires s != []
    ensures KeyOrder(s) ==> KeyOrder(s[1..])
    ensures DistinctKeys(s) ==> DistinctKeys(s[1..])
  {
  }

  lemma SameHead(a: seq<Entry>, b: seq<Entry>)
    requires multiset(a) == multiset(b) && KeyOrder(a) && KeyOrder(b) && DistinctKeys(a) && a != []
    ensures b != [] && a[0] == b[0]
  {
    assert a[0] in multiset(b);
    var j :| 0 <= j < |b| && b[j] == a[0];
    assert b[0] in multiset(a);
    var i :| 0 <= i < |a| && a[i] == b[0];
    if i > 0 { LessTotal(a[0].key, a[i].key); }
  }

  lemma Peeled(a: seq<Entry>, b: seq<Entry>)
    requires multiset(a) == multiset(b) && KeyOrder(a) && KeyOrder(b) && DistinctKeys(a) && a != []
    ensures b != [] && a[0] == b[0] && multiset(a[1..]) == multiset(b[1..])
    ensures KeyOrder(a[1..]) && KeyOrder(b[1..]) && DistinctKeys(a[1..])
  {
    SameHead(a, b);
    TailMultiset(a);
    TailMultiset(b);
    Tail(a);
    Tail(b);
  }

  lemma FromTails(a: seq<Entry>, b: seq<Entry>)
    requires a != [] && b != [] && a[0] == b[0] && a[1..] == b[1..]
    ensures a == b
  {
    assert a == [a[0]] + a[1..] && b == [b[0]] + b[1..];
  }

  /** With distinct keys the order of the list is determined. */
  lemma {:induction false} OrderUnique(a: seq<Entry>, b: seq<Entry>)
    requires multiset(a) == multiset(b) && KeyOrder(a) && KeyOrder(b) && DistinctKeys(a)
    ensures a == b
  {
    if a == [] {
      assert |b| == |multiset(b)| == |multiset(a)| == 0;
    } else {
      Peeled(a, b);
      OrderUnique(a[1..], b[1..]);
      FromTails(a, b);
    }
  }

  /** The hash is a function of the file system and the roots whenever no two entries share a key. */
  lemma HashUnique(fs: FileSystem, roots: seq<string>, sha: string -> string, canonical: seq<Entry> -> string,
                   ts: seq<Option<Trail>>, us: seq<Option<Trail>>, ps: seq<seq<Entry>>, qs: seq<seq<Entry>>,
                   a: seq<Entry>, b: seq<Entry>)
    requires Walks(fs, roots, ts) && Parts(sha, roots, ts, ps) && Walks(fs, roots, us) && Parts(sha, roots, us, qs)
    requires multiset(a) == multiset(Flatten(ps)) && multiset(b) == multiset(Flatten(qs))
    requires KeyOrder(a) && KeyOrder(b) && DistinctKeys(a)
    ensures a == b && HashOf(sha, canonical, a) == HashOf(sha, canonical, b)
  {
    PartsUnique(fs, roots, sha, ts, us, ps, qs);
    OrderUnique(a, b);
  }
}
