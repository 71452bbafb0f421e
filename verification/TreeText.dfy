/**
 From the hash back to the list and the trees: json.Marshal replaces bytes that are not UTF-8, so the
 hash determines the trees exactly for names that are (internal/assay/snapshot.go, hashPathTree).
 */
module TreeText {
  import opened Results
  import opened Text
  import opened Utf8
  import opened TreeWalk
  import opened TreeKeys
  import opened TreeHash
  import opened OneFile
  import opened TreeExact

  /** An entry as JSON shows it. */
  datatype Shown = Shown(key: seq<Token>, sha: seq<Token>)

  function EntryTokens(e: Entry): Shown {
    Shown(Tokens(e.key), Tokens(e.sha))
  }

  function ListTokens(entries: seq<Entry>): (r: seq<Shown>)
    ensures |r| == |entries| && forall i | 0 <= i < |r| :: r[i] == EntryTokens(entries[i])
  {
    seq(|entries|, i requires 0 <= i < |entries| => EntryTokens(entries[i]))
  }

  /** The JSON text of a list shows the tokens of its strings, and nothing else. */
  ghost predicate IsJson(canonical: seq<Entry> -> string) {
    forall a, b {:trigger canonical(a), canonical(b)} :: canonical(a) == canonical(b) <==>
      ListTokens(a) == ListTokens(b)
  }

  predicate ValidEntry(e: Entry) { Valid(e.key) && Valid(e.sha) }

  predicate ValidList(entries: seq<Entry>) {
    forall i | 0 <= i < |entries| :: ValidEntry(entries[i])
  }

  lemma SameEntry(e: Entry, f: Entry)
    requires ValidEntry(e) && EntryTokens(e) == EntryTokens(f)
    ensures e == f
  {
    SameTokens(e.key, f.key);
    SameTokens(e.sha, f.sha);
  }

  lemma SameListTokens(a: seq<Entry>, b: seq<Entry>)
    requires ValidList(a) && ListTokens(a) == ListTokens(b)
    ensures a == b
  {
    forall i | 0 <= i < |a| ensures a[i] == b[i] {
      assert ListTokens(a)[i] == ListTokens(b)[i] && ValidEntry(a[i]);
      SameEntry(a[i], b[i]);
    }
  }

  lemma OtherEntry(e: Entry) returns (f: Entry)
    requires !ValidEntry(e)
    ensures f != e && EntryTokens(f) == EntryTokens(e)
  {
    if !Valid(e.key) {
      var key := Exchanged(e.key);
      f := Entry(key, e.sha);
    } else {
      var sha := Exchanged(e.sha);
      f := Entry(e.key, sha);
    }
  }

  /** A list is the only one with its JSON text if and only if all its strings are UTF-8. */
  lemma ListExact(canonical: seq<Entry> -> string, a: seq<Entry>)
    requires IsJson(canonical)
    ensures (forall b :: canonical(b) == canonical(a) ==> b == a) <==> ValidList(a)
  {
    if ValidList(a) {
      forall b | canonical(b) == canonical(a) ensures b == a { SameListTokens(a, b); }
    } else {
      var i :| 0 <= i < |a| && !ValidEntry(a[i]);
      var e := OtherEntry(a[i]);
      var b := a[i := e];
      assert ListTokens(a) == ListTokens(b) && b[i] != a[i];
      assert canonical(b) == canonical(a);
    }
  }

  // ---- UTF-8 names give UTF-8 lists

  ghost predicate Utf8Names(fs: Files) {
    && (forall d, n | d in fs && n in Names(fs, d) :: Valid(n))
    && (forall p, n | p in fs && fs[p].Link? && fs[p].target.Some? && n in fs[p].target.value :: Valid(n))
  }

  ghost predicate Utf8Digest(sha: string -> string) {
    forall x {:trigger sha(x)} :: Valid(sha(x))
  }

  lemma PlainValid()
    ensures Valid("") && Valid("/") && Valid(SEPARATOR) && Valid(TARGET_SUFFIX)
  {
    Ascii(SEPARATOR);
    Ascii(TARGET_SUFFIX);
    Ascii("/");
  }

  lemma {:induction false} Ascii(s: string)
    requires forall c | c in s :: c as int < 0x80
    ensures Valid(s)
  {
    if s != "" {
      assert s[0] in s && Width(s) == 1 && forall c | c in s[1..] :: c in s;
      Ascii(s[1..]);
    }
  }

  lemma {:induction false} JoinValid(segs: seq<string>)
    requires forall n | n in segs :: Valid(n)
    ensures Valid(Join(segs))
  {
    if |segs| == 1 {
      assert segs[0] in segs;
    } else if |segs| > 1 {
      assert segs[0] in segs && forall n | n in segs[1..] :: n in segs;
      JoinValid(segs[1..]);
      PlainValid();
      ValidConcat(segs[0], "/");
      ValidConcat(segs[0] + "/", Join(segs[1..]));
    }
  }

  lemma {:induction false} WalkedValid(fs: Files, root: Path, t: Trail, r: Path)
    requires Utf8Names(fs) && IsWalk(fs, root, t) && r in t.walked
    ensures forall n | n in r :: Valid(n)
    decreases |r|
  {
    if r != [] {
      assert Entered(fs, t, r);
      WalkedValid(fs, root, t, Parent(r));
      assert r == Parent(r) + [Base(r)];
      assert Valid(Base(r));
    }
  }

  /** The names in a fact are names of the file system. */
  lemma FactValid(fs: Files, root: Path, t: Trail, f: Fact)
    requires Utf8Names(fs) && IsWalk(fs, root, t) && f in t.facts
    ensures (forall n | n in f.rel :: Valid(n)) && (f.LinkAt? ==> forall n | n in f.target :: Valid(n))
  {
    assert Holds(fs, t, f);
    WalkedValid(fs, root, t, Parent(f.rel));
    assert f.rel == Parent(f.rel) + [Base(f.rel)];
    assert Valid(Base(f.rel));
  }

  lemma FactEntryValid(sha: string -> string, rootName: string, f: Fact)
    requires Utf8Digest(sha) && Valid(rootName) && (forall n | n in f.rel :: Valid(n))
    requires f.LinkAt? ==> forall n | n in f.target :: Valid(n)
    ensures ValidEntry(EntryOf(sha, rootName, f))
  {
    PlainValid();
    JoinValid(f.rel);
    ValidConcat(rootName, SEPARATOR);
    ValidConcat(rootName + SEPARATOR, RelText(f.rel));
    match f {
      case FileAt(rel, data) => assert Valid(sha(data));
      case LinkAt(rel, target) =>
        ValidConcat(rootName + SEPARATOR + RelText(rel), TARGET_SUFFIX);
        JoinValid(target);
        ValidConcat("/", Join(target));
    }
  }

  lemma ListValid(fs: FileSystem, roots: seq<string>, sha: string -> string, ts: seq<Option<Trail>>, a: seq<Entry>)
    requires Utf8Names(fs.nodes) && Utf8Digest(sha) && (forall r | r in roots :: Valid(r))
    requires IsListing(fs, roots, sha, ts, a)
    ensures ValidList(a)
  {
    forall i | 0 <= i < |a| ensures ValidEntry(a[i]) {
      assert a[i] in a;
      assert Listed(sha, roots, ts, a[i]);
      var k, f :| 0 <= k < |roots| && ts[k].Some? && f in ts[k].value.facts && a[i] == EntryOf(sha, roots[k], f);
      FactValid(fs.nodes, fs.locate[roots[k]], ts[k].value, f);
      assert roots[k] in roots;
      FactEntryValid(sha, roots[k], f);
    }
  }

  // ---- from the hash to the trees

  lemma SameHash(sha: string -> string, canonical: seq<Entry> -> string, a: seq<Entry>, b: seq<Entry>)
    requires IsDigest(sha) && IsJson(canonical) && HashOf(sha, canonical, a) == HashOf(sha, canonical, b)
    ensures ListTokens(a) == ListTokens(b)
  {
    assert sha(canonical(a)) != "" && sha(canonical(b)) != "";
    if a != [] && b != [] { assert canonical(a) == canonical(b); }
  }

  /**
   End to end: if all names and link targets on one side are UTF-8, an equal hash of unambiguous roots
   means equal trees, in both directions and whatever the other side holds.
   */
  lemma HashDetermines(fs: FileSystem, gs: FileSystem, roots: seq<string>, sha: string -> string,
                       canonical: seq<Entry> -> string, ts: seq<Option<Trail>>, us: seq<Option<Trail>>,
                       a: seq<Entry>, b: seq<Entry>)
    requires IsDigest(sha) && Utf8Digest(sha) && IsJson(canonical)
    requires Unambiguous(roots) && (forall r | r in roots :: Valid(r)) && Utf8Names(fs.nodes)
    requires WellNamed(fs.nodes) && WellNamed(gs.nodes) && fs.locate == gs.locate
    requires IsListing(fs, roots, sha, ts, a) && IsListing(gs, roots, sha, us, b)
    requires HashOf(sha, canonical, a) == HashOf(sha, canonical, b)
    ensures SameTrees(fs, gs, roots) && SameTrees(gs, fs, roots)
  {
    ListValid(fs, roots, sha, ts, a);
    SameHash(sha, canonical, a, b);
    SameListTokens(a, b);
    UnambiguousDetermines(roots);
    assert SameList(fs, gs, roots, sha, ts, us, a) && SameList(gs, fs, roots, sha, us, ts, a);
  }

  // ---- one file, and the exact condition on its name

  function Solo(root: string, n: string): FileSystem
    requires root != ""
  {
    FileSystem(Chain(RootPath(root), [n]), map[root := RootPath(root)])
  }

  function SoloList(sha: string -> string, root: string, n: string): seq<Entry> {
    [EntryOf(sha, root, FileAt([n], "content"))]
  }

  ghost function SoloTrails(root: string, n: string): seq<Option<Trail>>
    requires root != ""
  {
    [Some(OneTrail(RootPath(root), [n]))]
  }

  /** The chain of one file: its directory and the file itself. */
  lemma SoloNodes(root: string, n: string)
    requires CleanRoot(root)
    ensures var base, fs := RootPath(root), Solo(root, n).nodes;
            && HasChain(fs, base, [n]) && base in fs && fs[base] == Dir(Some([n]))
            && base + [n] in fs && fs[base + [n]] == Regular(Some("content"))
  {
    var base, fs := RootPath(root), Solo(root, n).nodes;
    ChainHasChain(base, [n]);
    assert ChainAt(fs, base, [n], 0) && ChainAt(fs, base, [n], 1);
    assert base + [n][..0] == base && base + [n][..1] == base + [n];
  }

  lemma SoloWalks(root: string, n: string)
    requires CleanRoot(root)
    ensures Walks(Solo(root, n), [root], SoloTrails(root, n))
  {
    SoloNodes(root, n);
    OneFileWalk(Solo(root, n).nodes, RootPath(root), [n]);
  }

  lemma SoloNamed(root: string, n: string)
    requires CleanRoot(root) && Name(n)
    ensures WellNamed(Solo(root, n).nodes)
  {
    var base, fs := RootPath(root), Solo(root, n).nodes;
    forall p | p in fs ensures PlaceOk(p) && !fs[p].Link? && forall m | m in Names(fs, p) :: Name(m) {
      ChainNamed(base, [n], p);
    }
  }

  lemma SoloListing(root: string, n: string, sha: string -> string)
    requires CleanRoot(root) && Name(n)
    ensures IsListing(Solo(root, n), [root], sha, SoloTrails(root, n), SoloList(sha, root, n))
    ensures WellNamed(Solo(root, n).nodes)
  {
    SoloWalks(root, n);
    SoloNamed(root, n);
    forall e { SoloListed(root, n, sha, e); }
  }

  lemma SoloListed(root: string, n: string, sha: string -> string, e: Entry)
    requires root != ""
    ensures e in SoloList(sha, root, n) <==> Listed(sha, [root], SoloTrails(root, n), e)
  {
    var ts, f := SoloTrails(root, n), FileAt([n], "content");
    assert ts[0].value.facts == {f};
    if e in SoloList(sha, root, n) { assert [root][0] == root && f in ts[0].value.facts; }
  }

  lemma SoloUtf8(root: string, n: string)
    requires CleanRoot(root) && Name(n) && Valid(n)
    ensures Utf8Names(Solo(root, n).nodes)
  {
    var base, fs := RootPath(root), Solo(root, n).nodes;
    ChainHasChain(base, [n]);
    forall p | p in fs ensures !fs[p].Link? && forall m | m in Names(fs, p) :: Valid(m) {
      ChainPaths(base, [n], p);
      assert ChainAt(fs, base, [n], |p| - |base|);
    }
  }

  /** A name with its replaced byte exchanged is still a name. */
  lemma NameAlike(n: string, m: string)
    requires Name(n) && Alike(n, m) && n != m
    ensures Name(m)
  {
    var i :| 0 <= i < |n| && m[i] != n[i];
    assert m[i] as int >= 0xFE;
  }

  lemma SoloBelow(root: string, n: string)
    requires CleanRoot(root)
    ensures BelowRoot(Solo(root, n), [root], root, RootPath(root), n)
  {
    SoloNodes(root, n);
    ReachRoot(Solo(root, n).nodes, RootPath(root));
  }

  lemma SoloAbsent(base: Path, n: string, m: string)
    requires n != m
    ensures base + [n] !in Chain(base, [m])
  {
    assert (base + [n])[|base|] == n;
    if base + [n] in Chain(base, [m]) { ChainPaths(base, [m], base + [n]); }
  }

  /** The file `n` of the one tree is not in the other. */
  lemma SoloDiffers(root: string, n: string, m: string)
    requires CleanRoot(root) && n != m
    ensures !SameTrees(Solo(root, n), Solo(root, m), [root])
  {
    var base := RootPath(root);
    SoloNodes(root, n);
    SoloBelow(root, n);
    SoloAbsent(base, n, m);
    assert !SameNode(Solo(root, n).nodes, Solo(root, m).nodes, base + [n]);
  }

  lemma SoloTokens(root: string, n: string, m: string, sha: string -> string)
    requires Tokens(n) == Tokens(m)
    ensures ListTokens(SoloList(sha, root, n)) == ListTokens(SoloList(sha, root, m))
  {
    var front := root + SEPARATOR;
    TokensConcat(front, n);
    TokensConcat(front, m);
  }

  /** Every tree with this hash holds the one file of this name. */
  ghost predicate NameDetermined(root: string, n: string, sha: string -> string, canonical: seq<Entry> -> string)
    requires root != ""
  {
    forall gs: FileSystem, us, b {:trigger IsListing(gs, [root], sha, us, b)}
      | WellNamed(gs.nodes) && gs.locate == Solo(root, n).locate && IsListing(gs, [root], sha, us, b) &&
        HashOf(sha, canonical, b) == HashOf(sha, canonical, SoloList(sha, root, n)) ::
      SameTrees(Solo(root, n), gs, [root])
  }

  /** The hash of a tree determines the name of its file if and only if the name is UTF-8. */
  lemma NameExact(root: string, n: string, sha: string -> string, canonical: seq<Entry> -> string)
    requires CleanRoot(root) && Valid(root) && Name(n) && IsDigest(sha) && Utf8Digest(sha) && IsJson(canonical)
    ensures NameDetermined(root, n, sha, canonical) <==> Valid(n)
  {
    var fs, a := Solo(root, n), SoloList(sha, root, n);
    SoloListing(root, n, sha);
    if Valid(n) {
      SoloUtf8(root, n);
      forall gs: FileSystem, us, b | WellNamed(gs.nodes) && gs.locate == fs.locate &&
        IsListing(gs, [root], sha, us, b) &&
                         HashOf(sha, canonical, b) == HashOf(sha, canonical, a)
        ensures SameTrees(fs, gs, [root])
      {
        HashDetermines(fs, gs, [root], sha, canonical, SoloTrails(root, n), us, a, b);
      }
    } else {
      var m := Exchanged(n);
      NameAlike(n, m);
      SoloListing(root, m, sha);
      SoloTokens(root, n, m, sha);
      SoloDiffers(root, n, m);
      assert canonical(a) == canonical(SoloList(sha, root, m));
    }
  }

  /** At concrete names: the single bytes 0xFF and 0xFE hash alike. */
  lemma TwoBytesOneHash(root: string, sha: string -> string, canonical: seq<Entry> -> string, n: string, m: string)
    requires CleanRoot(root) && IsJson(canonical) && n == [0xFF as char] && m == [0xFE as char]
    ensures HashOf(sha, canonical, SoloList(sha, root, n)) == HashOf(sha, canonical, SoloList(sha, root, m))
    ensures !SameTrees(Solo(root, n), Solo(root, m), [root])
  {
    assert Width(n) == 0 && Width(m) == 0 && n[1..] == "" && m[1..] == "";
    SoloTokens(root, n, m, sha);
    SoloDiffers(root, n, m);
    assert canonical(SoloList(sha, root, n)) == canonical(SoloList(sha, root, m));
  }
}
