/** The list of the tree hash determines the trees exactly when the root names cannot be confused. */
module TreeExact {
  import opened Results
  import opened Order
  import opened Text
  import opened TreeWalk
  import opened TreeKeys
  import opened TreeHash
  import opened OneFile

  /** A regular file or symlink of `fs` is the same in `gs`, and so is the content behind a symlink to a file. */
  ghost predicate SameNode(fs: Files, gs: Files, p: Path) {
    p in fs && (fs[p].Regular? || fs[p].Link? ==> p in gs && gs[p] == fs[p] && SameBehind(fs, gs, fs[p]))
  }

  predicate SameBehind(fs: Files, gs: Files, node: Node) {
    node.Link? && node.target.Some? && !IsDir(fs, node.target.value) ==>
      Read(gs, node.target.value) == Read(fs, node.target.value)
  }

  /** `gs` has the regular files and symlinks that `fs` has below its roots. */
  ghost predicate SameTrees(fs: FileSystem, gs: FileSystem, roots: seq<string>) {
    forall name, d, n {:trigger BelowRoot(fs, roots, name, d, n)} | BelowRoot(fs, roots, name, d, n) ::
      SameNode(fs.nodes, gs.nodes, d + [n])
  }

  ghost predicate BelowRoot(fs: FileSystem, roots: seq<string>, name: string, d: Path, n: string) {
    name in roots && Usable(fs, name) && Reach(fs.nodes, fs.locate[name], d) && n in Names(fs.nodes, d)
  }

  /** Two well-named file systems that locate the roots alike and give the same list. */
  ghost predicate SameList(fs: FileSystem, gs: FileSystem, roots: seq<string>, sha: string -> string,
                           ts: seq<Option<Trail>>, us: seq<Option<Trail>>, entries: seq<Entry>)
  {
    && IsDigest(sha) && WellNamed(fs.nodes) && WellNamed(gs.nodes) && fs.locate == gs.locate
    && IsListing(fs, roots, sha, ts, entries) && IsListing(gs, roots, sha, us, entries)
  }

  /** Equal lists come from equal trees. */
  ghost predicate Determines(roots: seq<string>) {
    forall fs, gs, sha, ts, us, entries {:trigger SameList(fs, gs, roots, sha, ts, us, entries)}
      | SameList(fs, gs, roots, sha, ts, us, entries) :: SameTrees(fs, gs, roots)
  }

  lemma UnambiguousDetermines(roots: seq<string>)
    requires Unambiguous(roots)
    ensures Determines(roots)
  {
    forall fs, gs, sha, ts, us,
      entries | SameList(fs, gs, roots, sha, ts, us, entries) ensures SameTrees(fs, gs, roots) {
      forall name, d, n | BelowRoot(fs, roots, name, d, n) ensures SameNode(fs.nodes, gs.nodes, d + [n]) {
        var i :| 0 <= i < |roots| && roots[i] == name;
        ListingDetermines(fs, gs, roots, sha, ts, us, entries, i, d, n);
      }
    }
  }

  // ---- roots that sit where their text says

  /** An absolute path in its cleaned form, below the root directory. */
  predicate CleanRoot(r: string) {
    r != "" && r[0] == '/' && forall n | n in Split(r[1..]) :: Name(n)
  }

  function RootPath(r: string): Path
    requires r != ""
  {
    Split(r[1..])
  }

  /** Clean roots without repetition, none inside another. */
  predicate Apart(roots: seq<string>) {
    && Distinct(roots) && (forall r | r in roots :: CleanRoot(r))
    && (forall a, b | a in roots && b in roots && a != b :: !(RootPath(a) <= RootPath(b)))
  }

  predicate Placed(fs: FileSystem) {
    forall r | r in fs.locate :: r != "" && fs.locate[r] == RootPath(r)
  }

  /** Equal lists come from equal trees, for roots found where their text says and directories listed in order. */
  ghost predicate DeterminesPlaced(roots: seq<string>) {
    forall fs, gs, sha, ts, us, entries {:trigger SameList(fs, gs, roots, sha, ts, us, entries)}
      | SameList(fs, gs, roots, sha, ts, us, entries) && Placed(fs) &&
        SortedListings(fs.nodes) && SortedListings(gs.nodes) ::
      SameTrees(fs, gs, roots)
  }

  // ---- confused roots: one file, seen under either root

  predicate Incomparable(a: Path, b: Path) {
    !(a <= b) && !(b <= a)
  }

  /** Two paths with a common extension are comparable. */
  lemma CommonExtension(a: Path, b: Path, x: Path)
    requires b <= a + x
    ensures a <= b || b <= a
  {
    if |b| <= |a| {
      assert b == (a + x)[..|b|] == a[..|b|];
    } else {
      assert a == (a + x)[..|a|] == b[..|a|];
    }
  }

  /** The file below `full`, nothing below `bare`. */
  function Half(full: Path, x: Path, bare: Path): Files {
    Chain(full, x) + map[bare := Dir(Some([]))]
  }

  lemma HalfHasChain(full: Path, x: Path, bare: Path)
    requires Incomparable(full, bare)
    ensures HasChain(Half(full, x, bare), full, x)
  {
    ChainHasChain(full, x);
    forall k: nat | k <= |x| ensures ChainAt(Half(full, x, bare), full, x, k) {
      assert ChainAt(Chain(full, x), full, x, k);
      assert full <= full + x[..k];
    }
  }

  lemma HalfNamed(full: Path, x: Path, bare: Path)
    requires Incomparable(full, bare) && PlaceOk(full) && PlaceOk(bare) && RelOk(x)
    ensures WellNamed(Half(full, x, bare))
  {
    var fs, chain := Half(full, x, bare), Chain(full, x);
    forall p | p in fs ensures PlaceOk(p) && !fs[p].Link? && forall n | n in Names(fs, p) :: Name(n) {
      if p != bare {
        ChainNamed(full, x, p);
        assert fs[p] == chain[p] && Names(fs, p) == Names(chain, p);
      }
    }
  }

  /** A file at `full/x`, an empty directory `bare`, and the finished walks of both. */
  ghost predicate IsHalf(fs: Files, full: Path, x: Path, bare: Path, t: Trail) {
    && x != [] && WellNamed(fs) && SortedListings(fs)
    && IsDir(fs, full) && IsDir(fs, bare) && IsWalk(fs, bare, EmptyTrail(bare))
    && IsWalk(fs, full, t) && t.facts == {FileAt(x, "content")}
    && (forall p {:trigger p in fs} | p in fs :: full <= p || p == bare)
    && HasFile(fs, full, x)
  }

  /** The file and its directory, which is reached from `full`. */
  ghost predicate HasFile(fs: Files, full: Path, x: Path)
    requires x != []
  {
    var k := |x| - 1;
    ChainAt(fs, full, x, k) && ChainAt(fs, full, x, k + 1) && Reach(fs, full, full + x[..k])
  }

  ghost function EmptyTrail(bare: Path): Trail { Trail(map[[] := bare], {}, map[]) }

  lemma MakeHalf(full: Path, x: Path, bare: Path) returns (fs: Files, t: Trail)
    requires Incomparable(full, bare) && PlaceOk(full) && PlaceOk(bare) && RelOk(x)
    ensures IsHalf(fs, full, x, bare, t)
  {
    fs, t := Half(full, x, bare), OneTrail(full, x);
    HalfNamed(full, x, bare);
    HalfPlaces(full, x, bare);
    HalfHasFile(full, x, bare);
    OneFileWalk(fs, full, x);
    EmptyWalk(fs, bare);
  }

  lemma HalfPlaces(full: Path, x: Path, bare: Path)
    ensures var fs := Half(full, x, bare);
            SortedListings(fs) && forall p {:trigger p in fs} | p in fs :: full <= p || p == bare
  {
    var fs := Half(full, x, bare);
    forall p | p in fs ensures Ascending(fs, p) && (full <= p || p == bare) {
      if p != bare { ChainPaths(full, x, p); }
    }
  }

  lemma HalfHasFile(full: Path, x: Path, bare: Path)
    requires Incomparable(full, bare) && x != []
    ensures var fs := Half(full, x, bare); HasChain(fs, full, x) && IsDir(fs, full) && HasFile(fs, full, x)
  {
    var fs := Half(full, x, bare);
    HalfHasChain(full, x, bare);
    assert ChainAt(fs, full, x, 0) && full + x[..0] == full;
    ChainReach(fs, full, x);
    assert ChainAt(fs, full, x, |x| - 1) && ChainAt(fs, full, x, |x|);
  }

  /** Each root's trail: the file under `name`, nothing under `other`, and all further roots missing. */
  ghost function TrailsFor(roots: seq<string>, name: string, withFile: Trail, other: string, empty: Trail)
    : (ts: seq<Option<Trail>>)
    ensures |ts| == |roots|
    ensures forall i | 0 <= i < |roots| ::
              ts[i] == if roots[i] == name then Some(withFile) else if roots[i] == other then Some(empty) else None
  {
    seq(|roots|, i requires 0 <= i < |roots| =>
      if roots[i] == name then Some(withFile) else if roots[i] == other then Some(empty) else None)
  }

  /** `fs` holds the half tree, reached under two root names only. */
  ghost predicate HalfSystem(fs: FileSystem, t: Trail, name: string, full: Path, x: Path, other: string, bare: Path) {
    && name != other && IsHalf(fs.nodes, full, x, bare, t)
    && fs.locate.Keys == {name, other} && fs.locate[name] == full && fs.locate[other] == bare
  }

  lemma HalfWalks(roots: seq<string>, fs: FileSystem, t: Trail, name: string, full: Path, x: Path, other: string,
                  bare: Path)
    requires HalfSystem(fs, t, name, full, x, other, bare)
    ensures Walks(fs, roots, TrailsFor(roots, name, t, other, EmptyTrail(bare)))
  {
    var ts := TrailsFor(roots, name, t, other, EmptyTrail(bare));
    forall k | 0 <= k < |roots|
      ensures ts[k].Some? <==> Usable(fs, roots[k])
      ensures ts[k].Some? ==> IsWalk(fs.nodes, fs.locate[roots[k]], ts[k].value)
    {
      assert roots[k] == name || roots[k] == other || roots[k] !in fs.locate;
    }
  }

  lemma HalfListed(roots: seq<string>, sha: string -> string, t: Trail, name: string, x: Path, other: string,
                   bare: Path, g: Entry)
    requires name in roots && name != other && t.facts == {FileAt(x, "content")}
    ensures Listed(sha, roots, TrailsFor(roots, name, t, other, EmptyTrail(bare)), g) <==>
            g == EntryOf(sha, name, FileAt(x, "content"))
  {
    var ts, file := TrailsFor(roots, name, t, other, EmptyTrail(bare)), FileAt(x, "content");
    var i :| 0 <= i < |roots| && roots[i] == name;
    assert ts[i] == Some(t) && file in t.facts;
    if Listed(sha, roots, ts, g) {
      var k, f :| 0 <= k < |roots| && ts[k].Some? && f in ts[k].value.facts && g == EntryOf(sha, roots[k], f);
    }
  }

  lemma HalfListing(roots: seq<string>, sha: string -> string, fs: FileSystem, t: Trail,
                    name: string, full: Path, x: Path, other: string, bare: Path)
    requires name in roots && HalfSystem(fs, t, name, full, x, other, bare)
    ensures IsListing(fs, roots, sha, TrailsFor(roots, name, t, other, EmptyTrail(bare)),
                      [EntryOf(sha, name, FileAt(x, "content"))])
  {
    HalfWalks(roots, fs, t, name, full, x, other, bare);
    forall g { HalfListed(roots, sha, t, name, x, other, bare, g); }
  }

  function Tag(x: string): string { "h" + x }

  lemma TagIsDigest()
    ensures IsDigest(Tag)
  {
    forall x, y | Tag(x) == Tag(y) ensures x == y {
      assert x == Tag(x)[1..] && y == Tag(y)[1..];
    }
  }

  lemma ApartPair(roots: seq<string>, a: string, b: string)
    requires Apart(roots) && a in roots && b in roots && a != b
    ensures a != "" && b != "" && Incomparable(RootPath(a), RootPath(b)) && PlaceOk(RootPath(a)) && PlaceOk(RootPath(b))
  {
    assert CleanRoot(a) && CleanRoot(b);
  }

  /** Roots that can be confused hide the move of a file from one to the other. */
  lemma AmbiguousConfuses(roots: seq<string>, a: string, b: string)
    requires Apart(roots) && a in roots && b in roots && a != b && Ambiguous(a, b)
    ensures !DeterminesPlaced(roots)
  {
    AmbiguousCollides(a, b);
    ApartPair(roots, a, b);
    var x: Path, y: Path :| RelOk(x) && RelOk(y) && Key(a, x) == Key(b, y);
    CollidingConfuses(roots, a, RootPath(a), x, b, RootPath(b), y);
  }

  lemma CollidingConfuses(roots: seq<string>, a: string, p: Path, x: Path, b: string, q: Path, y: Path)
    requires a in roots && b in roots && a != b && a != "" && b != "" && p == RootPath(a) && q == RootPath(b)
    requires Incomparable(p, q) && PlaceOk(p) && PlaceOk(q) && RelOk(x) && RelOk(y) && Key(a, x) == Key(b, y)
    ensures !DeterminesPlaced(roots)
  {
    var locate: map<string, Path> := map[a := p, b := q];
    var fs, t := MakeSystem(locate, a, p, x, b, q);
    var gs, u := MakeSystem(locate, b, q, y, a, p);
    HalvesConfuse(roots, fs, gs, a, p, x, t, b, q, y, u);
  }

  lemma MakeSystem(locate: map<string, Path>, name: string, full: Path, x: Path, other: string, bare: Path)
    returns (fs: FileSystem, t: Trail)
    requires locate.Keys == {name, other} && locate[name] == full && locate[other] == bare
    requires name != other && Incomparable(full, bare) && PlaceOk(full) && PlaceOk(bare) && RelOk(x)
    ensures HalfSystem(fs, t, name, full, x, other, bare) && fs.locate == locate
  {
    var nodes;
    nodes, t := MakeHalf(full, x, bare);
    fs := FileSystem(nodes, locate);
  }

  lemma SameHalves(roots: seq<string>, fs: FileSystem, gs: FileSystem, a: string, p: Path, x: Path, t: Trail,
                   b: string, q: Path, y: Path, u: Trail)
    requires a in roots && b in roots && Key(a, x) == Key(b, y) && fs.locate == gs.locate
    requires HalfSystem(fs, t, a, p, x, b, q) && HalfSystem(gs, u, b, q, y, a, p)
    ensures SameList(fs, gs, roots, Tag, TrailsFor(roots, a, t, b, EmptyTrail(q)),
                     TrailsFor(roots, b, u, a, EmptyTrail(p)),
                     [EntryOf(Tag, a, FileAt(x, "content"))])
  {
    TagIsDigest();
    HalfListing(roots, Tag, fs, t, a, p, x, b, q);
    HalfListing(roots, Tag, gs, u, b, q, y, a, p);
    assert EntryOf(Tag, a, FileAt(x, "content")) == EntryOf(Tag, b, FileAt(y, "content"));
  }

  lemma Refutes(roots: seq<string>, fs: FileSystem, gs: FileSystem, sha: string -> string,
                ts: seq<Option<Trail>>, us: seq<Option<Trail>>, entries: seq<Entry>)
    requires SameList(fs, gs, roots, sha, ts, us, entries) && Placed(fs) && !SameTrees(fs, gs, roots)
    requires SortedListings(fs.nodes) && SortedListings(gs.nodes)
    ensures !DeterminesPlaced(roots)
  {
  }

  lemma HalvesConfuse(roots: seq<string>, fs: FileSystem, gs: FileSystem, a: string, p: Path, x: Path, t: Trail,
                      b: string, q: Path, y: Path, u: Trail)
    requires a in roots && b in roots && Key(a, x) == Key(b, y) && fs.locate == gs.locate && Incomparable(p, q)
    requires a != "" && b != "" && p == RootPath(a) && q == RootPath(b)
    requires HalfSystem(fs, t, a, p, x, b, q) && HalfSystem(gs, u, b, q, y, a, p)
    ensures !DeterminesPlaced(roots)
  {
    SameHalves(roots, fs, gs, a, p, x, t, b, q, y, u);
    FileGone(fs, gs, roots, a, x, q, y, t, u);
    Refutes(roots, fs, gs, Tag, TrailsFor(roots, a, t, b, EmptyTrail(q)), TrailsFor(roots, b, u, a, EmptyTrail(p)),
            [EntryOf(Tag, a, FileAt(x, "content"))]);
  }

  /** The moved file is below a root of the one file system and absent from the other. */
  lemma FileGone(fs: FileSystem, gs: FileSystem, roots: seq<string>, a: string, x: Path, q: Path, y: Path, t: Trail,
                 u: Trail)
    requires a in roots && a in fs.locate && Incomparable(fs.locate[a], q)
    requires IsHalf(fs.nodes, fs.locate[a], x, q, t) && IsHalf(gs.nodes, q, y, fs.locate[a], u)
    ensures !SameTrees(fs, gs, roots)
  {
    var p, k := fs.locate[a], |x| - 1;
    var d, n := p + x[..k], x[k];
    assert p + x[..k+1] == d + [n] && x[..k+1] == x;
    assert BelowRoot(fs, roots, a, d, n);
    if q <= p + x { CommonExtension(p, q, x); }
    assert |d + [n]| > |p|;
  }

  /**
   For clean roots of which none lies inside another, the list determines the trees if and only if no
   root continues another ambiguously; it makes no difference whether the roots are found where their
   text says or elsewhere, through symlinks.
   */
  lemma DeterminesExact(roots: seq<string>)
    requires Apart(roots)
    ensures Determines(roots) <==> Unambiguous(roots)
    ensures DeterminesPlaced(roots) <==> Unambiguous(roots)
  {
    if Unambiguous(roots) {
      UnambiguousDetermines(roots);
    } else {
      var a, b :| a in roots && b in roots && a != b && Ambiguous(a, b);
      AmbiguousConfuses(roots, a, b);
    }
  }
}
