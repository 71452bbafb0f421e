/** The tree hash over several roots (internal/assay/snapshot.go, hashPathTree). */
module TreeHash {
  import opened Results
  import opened Order
  import opened Text
  import opened TreeWalk
  import opened Walking
  import opened TreeDetermination
  import opened TreeKeys

  /** The nodes, and where each root name leads (`os.Stat` follows symlinks). */
  datatype FileSystem = FileSystem(nodes: Files, locate: map<string, Path>)

  /** Roots that are missing or not directories are skipped. */
  predicate Usable(fs: FileSystem, root: string) {
    root in fs.locate && IsDir(fs.nodes, fs.locate[root])
  }

  lemma {:induction false} PathBound(s: set<Path>) returns (b: nat)
    ensures forall p | p in s :: |p| <= b
  {
    if s == {} {
      b := 0;
    } else {
      var p :| p in s;
      b := PathBound(s - {p});
      b := if |p| > b then |p| else b;
    }
  }

  /** One root: the walk ends on every file system, and fails exactly when something below cannot be read. */
  method WalkRoot(fs: Files, root: Path, rootName: string, sha: string -> string)
    returns (res: Result<seq<Entry>, WalkError>, ghost trail: Trail)
    requires IsDir(fs, root) && SortedListings(fs)
    ensures res.Ok? <==> !Obstructed(fs, root)
    ensures res.Ok? ==> IsWalk(fs, root, trail) && Lists(sha, rootName, res.value, trail.facts)
  {
    trail := Trail(map[], {}, map[]);
    if fs[root].names.None? {
      ReachRoot(fs, root);
      assert BadDir(fs, root);
      return Err(ReadFailed), trail;
    }
    ghost var bound := PathBound(fs.Keys);
    assert forall p | p in fs :: p in fs.Keys && Short(p, bound);
    var walker := new Walker(fs, root, rootName, sha, bound);
    InitialTrail(walker.trail, root);
    ghost var none: set<Path> := {};
    assert none + {[]} == {[]};
    var err := walker.WalkEntries([], root, none);
    if err.Some? {
      return Err(err.value), trail;
    }
    trail := walker.trail;
    FinishedUnobstructed(fs, root, trail);
    return Ok(walker.entries), trail;
  }

  lemma InitialTrail(t: Trail, root: Path)
    requires t == Trail(map[[] := root], {}, map[])
    ensures UpTo(t, [])
  {
    assert Paths(t) == {[]};
  }

  // ---- the list over all roots

  /** `parts[i]` lists each fact of the walk of root `i` once; a root that is skipped adds nothing. */
  ghost predicate Parts(sha: string -> string, roots: seq<string>, trails: seq<Option<Trail>>, parts: seq<seq<Entry>>)
  {
    && |trails| == |roots| == |parts|
    && forall i {:trigger parts[i]} | 0 <= i < |roots| ::
         if trails[i].Some? then Lists(sha, roots[i], parts[i], trails[i].value.facts) else parts[i] == []
  }

  /** `trails` holds a finished walk for every usable root. */
  ghost predicate Walks(fs: FileSystem, roots: seq<string>, trails: seq<Option<Trail>>) {
    && |trails| == |roots|
    && forall i {:trigger trails[i]} | 0 <= i < |roots| ::
         && (trails[i].Some? <==> Usable(fs, roots[i]))
         && (trails[i].Some? ==> IsWalk(fs.nodes, fs.locate[roots[i]], trails[i].value))
  }

  /** The facts recorded under a root name. */
  ghost function FactsOf(roots: seq<string>, trails: seq<Option<Trail>>, name: string): set<Fact>
    requires |trails| == |roots|
  {
    set i, f | 0 <= i < |roots| && roots[i] == name && trails[i].Some? && f in trails[i].value.facts :: f
  }

  /** `e` is the entry of a fact recorded under some root. */
  ghost predicate Listed(sha: string -> string, roots: seq<string>, trails: seq<Option<Trail>>, e: Entry)
    requires |trails| == |roots|
  {
    exists i, f :: 0 <= i < |roots| && trails[i].Some? && f in trails[i].value.facts && e == EntryOf(sha, roots[i], f)
  }

  ghost predicate IsListing(fs: FileSystem, roots: seq<string>, sha: string -> string, trails: seq<Option<Trail>>,
                            entries: seq<Entry>)
  {
    Walks(fs, roots, trails) && forall e :: e in entries <==> Listed(sha, roots, trails, e)
  }

  /** The walks of all usable roots, in order; the first failure stops the collection. */
  method CollectEntries(fs: FileSystem, roots: seq<string>, sha: string -> string)
    returns (res: Result<seq<Entry>, WalkError>, ghost trails: seq<Option<Trail>>, ghost parts: seq<seq<Entry>>)
    requires SortedListings(fs.nodes)
    ensures res.Ok? <==> Readable(fs, roots)
    ensures res.Ok? ==> Walks(fs, roots, trails) && Parts(sha, roots, trails, parts) && res.value == Flatten(parts)
  {
    var list: seq<Entry> := [];
    trails, parts := [], [];
    for i := 0 to |roots|
      invariant Walks(fs, roots[..i], trails) && Parts(sha, roots[..i], trails, parts) && list == Flatten(parts)
      invariant Readable(fs, roots[..i])
    {
      assert roots[..i+1] == roots[..i] + [roots[i]];
      var part: seq<Entry> := [];
      ghost var trail: Option<Trail> := None;
      if Usable(fs, roots[i]) {
        var one, t := WalkRoot(fs.nodes, fs.locate[roots[i]], roots[i], sha);
        if one.Err? {
          assert roots[i] in roots;
          return Err(one.error), trails, parts;
        }
        part, trail := one.value, Some(t);
      }
      PartsStep(fs, roots[..i], roots[i], sha, trails, parts, trail, part);
      list, trails, parts := list + part, trails + [trail], parts + [part];
    }
    assert roots[..|roots|] == roots;
    res := Ok(list);
  }

  ghost predicate Readable(fs: FileSystem, roots: seq<string>) {
    forall r | r in roots && Usable(fs, r) :: !Obstructed(fs.nodes, fs.locate[r])
  }

  /** No entries hash to the empty text; `canonical` is the JSON form of the list. */
  function HashOf(sha: string -> string, canonical: seq<Entry> -> string, entries: seq<Entry>): string {
    if entries == [] then "" else sha(canonical(entries))
  }

  function KeyOf(e: Entry): string { e.key }

  /** The hash of the list of all entries in the order of their keys; no entries hash to the empty text. */
  method HashPathTree(fs: FileSystem, roots: seq<string>, sha: string -> string, canonical: seq<Entry> -> string)
    returns (res: Result<string, WalkError>, ghost trails: seq<Option<Trail>>, ghost parts: seq<seq<Entry>>,
             ghost entries: seq<Entry>)
    requires SortedListings(fs.nodes)
    ensures res.Ok? <==> Readable(fs, roots)
    ensures res.Ok? ==> Walks(fs, roots, trails) && Parts(sha, roots, trails, parts)
    ensures res.Ok? ==> multiset(entries) == multiset(Flatten(parts)) && IsListing(fs, roots, sha, trails, entries)
    ensures res.Ok? ==> forall i, j | 0 <= i < j < |entries| :: !Less(entries[j].key, entries[i].key)
    ensures res.Ok? ==> res.value == if entries == [] then "" else sha(canonical(entries))
  {
    var list;
    list, trails, parts := CollectEntries(fs, roots, sha);
    entries := [];
    if list.Err? {
      return Err(list.error), trails, parts, entries;
    }
    PartsList(fs, roots, sha, trails, parts, list.value);
    if |list.value| == 0 {
      return Ok(""), trails, parts, [];
    }
    var sorted := SortBy(KeyOf, list.value);
    SortBySorts(KeyOf, list.value);
    SameMultiset(list.value, sorted);
    entries := sorted;
    assert multiset(entries)[list.value[0]] > 0;
    forall i, j | 0 <= i < j < |entries| ensures !Less(entries[j].key, entries[i].key) {
      assert KeyOf(entries[i]) == entries[i].key && KeyOf(entries[j]) == entries[j].key;
    }
    res := Ok(sha(canonical(sorted)));
  }

  /** One more root. */
  lemma PartsStep(fs: FileSystem, roots: seq<string>, root: string, sha: string -> string,
                  trails: seq<Option<Trail>>, parts: seq<seq<Entry>>, trail: Option<Trail>, part: seq<Entry>)
    requires Walks(fs, roots, trails) && Parts(sha, roots, trails, parts)
    requires trail.Some? <==> Usable(fs, root)
    requires trail.Some? ==> IsWalk(fs.nodes, fs.locate[root], trail.value)
    requires if trail.Some? then Lists(sha, root, part, trail.value.facts) else part == []
    ensures Walks(fs, roots + [root], trails + [trail]) && Parts(sha, roots + [root], trails + [trail], parts + [part])
    ensures Flatten(parts + [part]) == Flatten(parts) + part
  {
    var rs, ts, ps := roots + [root], trails + [trail], parts + [part];
    forall k | 0 <= k < |rs|
      ensures (ts[k].Some? <==> Usable(fs, rs[k])) && (ts[k].Some? ==> IsWalk(fs.nodes, fs.locate[rs[k]], ts[k].value))
      ensures if ts[k].Some? then Lists(sha, rs[k], ps[k], ts[k].value.facts) else ps[k] == []
    {
      if k < |roots| { assert ts[k] == trails[k] && rs[k] == roots[k] && ps[k] == parts[k]; }
    }
    assert ps[..|ps|-1] == parts;
  }

  /** An entry of one part is listed, and a listed entry lies in a part. */
  lemma PartMember(sha: string -> string, roots: seq<string>, trails: seq<Option<Trail>>, parts: seq<seq<Entry>>,
                   e: Entry)
    requires Parts(sha, roots, trails, parts)
    ensures e in Flatten(parts) <==> Listed(sha, roots, trails, e)
  {
    FlattenMember(parts, e);
    if k :| 0 <= k < |parts| && e in parts[k] {
      ListsMember(sha, roots[k], parts[k], trails[k].value.facts, e);
      var f :| f in trails[k].value.facts && e == EntryOf(sha, roots[k], f);
    }
    if Listed(sha, roots, trails, e) {
      var k, f :| 0 <= k < |roots| && trails[k].Some? && f in trails[k].value.facts && e == EntryOf(sha, roots[k], f);
      ListsMember(sha, roots[k], parts[k], trails[k].value.facts, e);
    }
  }

  lemma PartsList(fs: FileSystem, roots: seq<string>, sha: string -> string, trails: seq<Option<Trail>>,
                  parts: seq<seq<Entry>>, list: seq<Entry>)
    requires Walks(fs, roots, trails) && Parts(sha, roots, trails, parts) && list == Flatten(parts)
    ensures IsListing(fs, roots, sha, trails, list)
  {
    forall e { PartMember(sha, roots, trails, parts, e); }
  }

  // ---- the list determines the trees

  /** File names are non-empty and contain no slash. */
  ghost predicate WellNamed(fs: Files) {
    && (forall p | p in fs :: PlaceOk(p))
    && (forall d, n | d in fs && n in Names(fs, d) :: Name(n))
    && (forall p | p in fs && fs[p].Link? && fs[p].target.Some? :: PlaceOk(fs[p].target.value))
  }

  lemma {:induction false} WalkedRelOk(fs: Files, root: Path, t: Trail, r: Path)
    requires WellNamed(fs) && IsWalk(fs, root, t) && r in t.walked
    ensures forall n | n in r :: Name(n)
    decreases |r|
  {
    if r != [] {
      assert Entered(fs, t, r);
      WalkedRelOk(fs, root, t, Parent(r));
      assert r == Parent(r) + [Base(r)];
      assert Name(Base(r));
    }
  }

  lemma FactsAreOk(fs: Files, root: Path, t: Trail, f: Fact)
    requires WellNamed(fs) && IsWalk(fs, root, t) && f in t.facts
    ensures FactOk(f)
  {
    assert Holds(fs, t, f);
    WalkedRelOk(fs, root, t, Parent(f.rel));
    assert f.rel == Parent(f.rel) + [Base(f.rel)];
    assert Name(Base(f.rel));
  }

  /** A fact listed for one file system was recorded under the same root for the other. */
  lemma FactTransfers(fs: FileSystem, gs: FileSystem, roots: seq<string>, sha: string -> string,
                      ts: seq<Option<Trail>>, us: seq<Option<Trail>>, entries: seq<Entry>, i: nat, f: Fact)
    returns (j: nat)
    requires IsDigest(sha) && Unambiguous(roots) && WellNamed(fs.nodes) && WellNamed(gs.nodes)
    requires IsListing(fs, roots, sha, ts, entries) && IsListing(gs, roots, sha, us, entries)
    requires i < |roots| && ts[i].Some? && f in ts[i].value.facts
    ensures j < |roots| && roots[j] == roots[i] && us[j].Some? && f in us[j].value.facts
  {
    var e := EntryOf(sha, roots[i], f);
    assert Listed(sha, roots, ts, e);
    assert e in entries;
    assert Listed(sha, roots, us, e);
    var k, g :| 0 <= k < |roots| && us[k].Some? && g in us[k].value.facts && e == EntryOf(sha, roots[k], g);
    FactsAreOk(fs.nodes, fs.locate[roots[i]], ts[i].value, f);
    FactsAreOk(gs.nodes, gs.locate[roots[k]], us[k].value, g);
    EntryInjective(sha, roots, roots[i], f, roots[k], g);
    j := k;
  }

  /** Each side's trails are covered by the facts recorded under the root name, which hold there. */
  lemma SharedFacts(fs: FileSystem, gs: FileSystem, roots: seq<string>, sha: string -> string,
                    ts: seq<Option<Trail>>, us: seq<Option<Trail>>, entries: seq<Entry>, i: nat)
    requires IsDigest(sha) && Unambiguous(roots) && WellNamed(fs.nodes) && WellNamed(gs.nodes)
    requires IsListing(fs, roots, sha, ts, entries) && IsListing(gs, roots, sha, us, entries)
    requires i < |roots| && ts[i].Some?
    ensures Shared(fs.nodes, fs.locate[roots[i]], ts[i].value, FactsOf(roots, ts, roots[i]))
    ensures FactsOf(roots, ts, roots[i]) <= FactsOf(roots, us, roots[i])
  {
    var root, all := fs.locate[roots[i]], FactsOf(roots, ts, roots[i]);
    forall f | f in all ensures HoldsSomewhere(fs.nodes, root, f) {
      var k :| 0 <= k < |roots| && roots[k] == roots[i] && ts[k].Some? && f in ts[k].value.facts;
      var t := ts[k].value;
      assert IsWalk(fs.nodes, root, t);
      assert Holds(fs.nodes, t, f);
    }
    forall f | f in all ensures f in FactsOf(roots, us, roots[i]) {
      var k :| 0 <= k < |roots| && roots[k] == roots[i] && ts[k].Some? && f in ts[k].value.facts;
      var j := FactTransfers(fs, gs, roots, sha, ts, us, entries, k, f);
    }
  }

  /**
   If two file systems give the same list for unambiguous roots, then every regular file in a
   directory reachable from a root of the one is a regular file of the other, with the same content,
   and every symlink there is a symlink of the other, to the same target.
   */
  lemma ListingDetermines(fs: FileSystem, gs: FileSystem, roots: seq<string>, sha: string -> string,
                          ts: seq<Option<Trail>>, us: seq<Option<Trail>>, entries: seq<Entry>, i: nat, d: Path,
                          n: string)
    requires IsDigest(sha) && Unambiguous(roots) && WellNamed(fs.nodes) && WellNamed(gs.nodes) && fs.locate == gs.locate
    requires IsListing(fs, roots, sha, ts, entries) && IsListing(gs, roots, sha, us, entries)
    requires i < |roots| && Usable(fs, roots[i]) && Reach(fs.nodes, fs.locate[roots[i]], d) && n in Names(fs.nodes, d)
    ensures d + [n] in fs.nodes
    ensures fs.nodes[d + [n]].Regular? ==> d + [n] in gs.nodes && gs.nodes[d + [n]] == fs.nodes[d + [n]]
    ensures fs.nodes[d + [n]].Link? ==> d + [n] in gs.nodes && gs.nodes[d + [n]] == fs.nodes[d + [n]]
    ensures fs.nodes[d + [n]].Link? ==>
              var target := fs.nodes[d + [n]].target;
              target.Some? && (!IsDir(fs.nodes, target.value) ==>
                               Read(gs.nodes, target.value) == Read(fs.nodes, target.value))
  {
    var root, t := fs.locate[roots[i]], ts[i].value;
    var r := AllReached(fs.nodes, root, t, d);
    assert Recorded(fs.nodes, t, r, n);
    var node := fs.nodes[d + [n]];
    if node.Regular? {
      var f := FileAt(r + [n], node.data.value);
      var j := FactTransfers(fs, gs, roots, sha, ts, us, entries, i, f);
      BothShared(fs, gs, roots, sha, ts, us, entries, i, j);
      FileAgrees(fs.nodes, gs.nodes, root, t, us[j].value, FactsOf(roots, ts, roots[i]), r, n, node.data.value);
    } else if node.Link? {
      var f := LinkAt(r + [n], node.target.value);
      var j := FactTransfers(fs, gs, roots, sha, ts, us, entries, i, f);
      BothShared(fs, gs, roots, sha, ts, us, entries, i, j);
      assert Parent(f.rel) == r && Base(f.rel) == n;
      Counterpart(fs.nodes, gs.nodes, root, t, us[j].value, FactsOf(roots, ts, roots[i]), f);
      if !IsDir(fs.nodes, node.target.value) {
        var c := FileAt(r + [n], Read(fs.nodes, node.target.value).value);
        var k := FactTransfers(fs, gs, roots, sha, ts, us, entries, i, c);
        BothShared(fs, gs, roots, sha, ts, us, entries, i, k);
        Counterpart(fs.nodes, gs.nodes, root, t, us[k].value, FactsOf(roots, ts, roots[i]), c);
      }
    }
  }

  lemma BothShared(fs: FileSystem, gs: FileSystem, roots: seq<string>, sha: string -> string,
                   ts: seq<Option<Trail>>, us: seq<Option<Trail>>, entries: seq<Entry>, i: nat, j: nat)
    requires IsDigest(sha) && Unambiguous(roots) && WellNamed(fs.nodes) && WellNamed(gs.nodes) && fs.locate == gs.locate
    requires IsListing(fs, roots, sha, ts, entries) && IsListing(gs, roots, sha, us, entries)
    requires i < |roots| && j < |roots| && ts[i].Some? && us[j].Some? && roots[i] == roots[j]
    ensures Shared(fs.nodes, fs.locate[roots[i]], ts[i].value, FactsOf(roots, ts, roots[i]))
    ensures Shared(gs.nodes, fs.locate[roots[i]], us[j].value, FactsOf(roots, ts, roots[i]))
  {
    SharedFacts(fs, gs, roots, sha, ts, us, entries, i);
    SharedFacts(gs, fs, roots, sha, us, ts, entries, j);
    assert FactsOf(roots, ts, roots[i]) == FactsOf(roots, us, roots[i]);
  }
}
