/**
 The walk behind the runtime-tree hash: a recursive descent through real directories and symlinks,
 with every symlinked directory entered once (internal/assay/snapshot.go, hashPathTree).
 */
module TreeWalk {
  import opened Results
  import opened Text
  import opened Order

  /** A canonical absolute path, name by name. */
  type Path = seq<string>

  /** What lstat and a read show; None is a failing read, or a link that does not resolve. */
  datatype Node =
    | Dir(names: Option<seq<string>>)
    | Regular(data: Option<string>)
    | Link(target: Option<Path>)
    | Special(content: Option<string>)

  type Files = map<Path, Node>

  predicate IsDir(fs: Files, p: Path) {
    p in fs && fs[p].Dir?
  }

  function Names(fs: Files, p: Path): seq<string> {
    if IsDir(fs, p) && fs[p].names.Some? then fs[p].names.value else []
  }

  /** The bytes `os.ReadFile` returns. */
  function Read(fs: Files, p: Path): Option<string> {
    if p !in fs then None
    else match fs[p]
      case Regular(data) => data
      case Special(content) => content
      case _ => None
  }

  /** What the walk records about a logical path: a file's content, or where a symlink leads. */
  datatype Fact = FileAt(rel: Path, data: string) | LinkAt(rel: Path, target: Path)

  /**
   The directories entered, by logical path, the facts recorded, and for each directory entered through
   a symlink the logical path of that symlink.
   */
  datatype Trail = Trail(walked: map<Path, Path>, facts: set<Fact>, via: map<Path, Path>)

  function Parent(rel: Path): Path
    requires rel != []
  {
    rel[..|rel|-1]
  }

  function Base(rel: Path): string
    requires rel != []
  {
    rel[|rel|-1]
  }

  /** Where the entry `rel` of an entered directory sits. */
  function Spot(t: Trail, rel: Path): Path
    requires rel != [] && Parent(rel) in t.walked
  {
    t.walked[Parent(rel)] + [Base(rel)]
  }

  /** `rel` names an entry of an entered directory. */
  predicate IsEntry(fs: Files, t: Trail, rel: Path) {
    rel != [] && Parent(rel) in t.walked && Base(rel) in Names(fs, t.walked[Parent(rel)]) && Spot(t, rel) in fs
  }

  /** The fact is true of the file system. */
  predicate Holds(fs: Files, t: Trail, f: Fact) {
    && IsEntry(fs, t, f.rel)
    && var node := fs[Spot(t, f.rel)];
       match f
       case LinkAt(_, target) => node == Link(Some(target))
       case FileAt(_, data) =>
         || node == Regular(Some(data))
         || (node.Link? && node.target.Some? && !IsDir(fs, node.target.value) &&
             Read(fs, node.target.value) == Some(data))
  }

  // ---- the order of the walk

  /** Logical paths name by name; a directory comes before what lies in it. */
  predicate RelLess(a: Path, b: Path) {
    if b == [] then false
    else if a == [] then true
    else Less(a[0], b[0]) || (a[0] == b[0] && RelLess(a[1..], b[1..]))
  }

  lemma {:induction false} RelTransitive(a: Path, b: Path, c: Path)
    requires RelLess(a, b) && RelLess(b, c)
    ensures RelLess(a, c)
  {
    if a != [] {
      if Less(a[0], b[0]) && Less(b[0], c[0]) {
        LessTransitive(a[0], b[0], c[0]);
      } else if !Less(a[0], b[0]) && !Less(b[0], c[0]) {
        RelTransitive(a[1..], b[1..], c[1..]);
      }
    }
  }

  lemma {:induction false} RelIrreflexive(a: Path)
    ensures !RelLess(a, a)
  {
    if a != [] {
      RelIrreflexive(a[1..]);
      if Less(a[0], a[0]) { LessAsymmetric(a[0], a[0]); }
    }
  }

  lemma {:induction false} RelTotal(a: Path, b: Path)
    ensures RelLess(a, b) || a == b || RelLess(b, a)
  {
    if a != [] && b != [] {
      LessTotal(a[0], b[0]);
      if a[0] == b[0] {
        RelTotal(a[1..], b[1..]);
        assert a == [a[0]] + a[1..] && b == [b[0]] + b[1..];
      }
    }
  }

  lemma {:induction false} PrefixLess(a: Path, x: Path)
    requires x != []
    ensures RelLess(a, a + x)
  {
    if a != [] {
      PrefixLess(a[1..], x);
      assert (a + x)[0] == a[0] && (a + x)[1..] == a[1..] + x;
    }
  }

  /** Everything at or below an earlier name comes before a later name. */
  lemma {:induction false} SiblingLess(rel: Path, m: string, n: string, q: Path)
    requires Less(m, n) && rel + [m] <= q
    ensures RelLess(q, rel + [n])
  {
    assert q[0] == (rel + [m])[0];
    if rel != [] {
      assert rel[1..] + [m] <= q[1..] by {
        assert (rel + [m])[1..] == rel[1..] + [m] && q[..|rel|+1] == rel + [m];
        assert q[1..][..|rel|] == q[..|rel|+1][1..];
      }
      SiblingLess(rel[1..], m, n, q[1..]);
      assert (rel + [n])[1..] == rel[1..] + [n];
    }
  }

  /** The logical paths something is recorded about. */
  ghost function Paths(t: Trail): set<Path> {
    t.walked.Keys + set f | f in t.facts :: f.rel
  }

  /** Everything recorded so far comes before `p`. */
  ghost predicate Before(t: Trail, p: Path) {
    forall q | q in Paths(t) :: RelLess(q, p)
  }

  /** Everything recorded so far comes before `p` or is about `p` itself. */
  ghost predicate UpTo(t: Trail, p: Path) {
    forall q | q in Paths(t) :: q == p || RelLess(q, p)
  }

  /** `u` extends `t`. */
  predicate Extends(t: Trail, u: Trail) {
    && t.walked.Keys <= u.walked.Keys && (forall r | r in t.walked :: u.walked[r] == t.walked[r]) && t.facts <= u.facts
    && t.via.Keys <= u.via.Keys && (forall d | d in t.via :: u.via[d] == t.via[d])
  }

  /** `u` extends `t` by paths at or below `p` only. */
  ghost predicate Grown(t: Trail, u: Trail, p: Path) {
    Extends(t, u) && forall q | q in Paths(u) :: q in Paths(t) || p <= q
  }

  lemma GrownTwice(t: Trail, u: Trail, v: Trail, p: Path, q: Path)
    requires Grown(t, u, p) && Grown(u, v, q) && p <= q
    ensures Grown(t, v, p)
  {
  }

  lemma BeforeSibling(t: Trail, u: Trail, rel: Path, m: string, n: string)
    requires Before(t, rel + [m]) && Grown(t, u, rel + [m]) && Less(m, n)
    ensures Before(u, rel + [n])
  {
    SiblingLess(rel, m, n, rel + [m]);
    forall q | q in Paths(u) ensures RelLess(q, rel + [n]) {
      if q in Paths(t) { RelTransitive(q, rel + [m], rel + [n]); } else { SiblingLess(rel, m, n, q); }
    }
  }

  lemma BeforeDeeper(t: Trail, rel: Path, n: string)
    requires UpTo(t, rel)
    ensures Before(t, rel + [n])
  {
    PrefixLess(rel, [n]);
    forall q | q in Paths(t) ensures RelLess(q, rel + [n]) {
      if q != rel { RelTransitive(q, rel, rel + [n]); }
    }
  }

  lemma BeforeFresh(t: Trail, p: Path)
    requires Before(t, p)
    ensures p !in Paths(t) && UpTo(t, p)
  {
    RelIrreflexive(p);
  }

  lemma FreshFact(t: Trail, f: Fact)
    requires f.rel !in Paths(t)
    ensures f !in t.facts
  {
  }

  // ---- what a trail says

  /**
   An entered directory other than the root is a child directory, or the target of the symlink it
   is entered through.
   */
  predicate Entered(fs: Files, t: Trail, rel: Path)
    requires rel in t.walked
  {
    && IsDir(fs, t.walked[rel]) && fs[t.walked[rel]].names.Some?
    && (rel != [] ==>
          && IsEntry(fs, t, rel)
          && (fs[Spot(t, rel)].Dir? ==> t.walked[rel] == Spot(t, rel))
          && (fs[Spot(t, rel)].Dir? || fs[Spot(t, rel)] == Link(Some(t.walked[rel])))
          && (fs[Spot(t, rel)].Link? ==> t.walked[rel] in t.via && t.via[t.walked[rel]] == rel))
  }

  /** A directory marked as entered through a symlink was. */
  predicate EnteredVia(fs: Files, t: Trail, d: Path)
    requires d in t.via
  {
    var r := t.via[d];
    r in t.walked && t.walked[r] == d && IsEntry(fs, t, r) && fs[Spot(t, r)] == Link(Some(d))
  }

  /** Nothing about the entry `name` of the directory entered as `r` was left out. */
  ghost predicate Recorded(fs: Files, t: Trail, r: Path, name: string)
    requires r in t.walked
  {
    var spot := t.walked[r] + [name];
    spot in fs &&
    match fs[spot]
    case Regular(data) => data.Some? && FileAt(r + [name], data.value) in t.facts
    case Dir(_) => r + [name] in t.walked
    case Special(_) => true
    case Link(target) =>
      && target.Some? && LinkAt(r + [name], target.value) in t.facts
      && (if IsDir(fs, target.value) then Expanded(t, target.value, r + [name])
          else Read(fs, target.value).Some? && FileAt(r + [name], Read(fs, target.value).value) in t.facts)
  }

  /** The directory was entered through the symlink `rel`, or through one that comes before it. */
  predicate Expanded(t: Trail, d: Path, rel: Path) {
    d in t.via && (t.via[d] == rel || RelLess(t.via[d], rel))
  }

  /** The trail so far is sound; directories outside `open` are recorded completely. */
  ghost predicate Sound(fs: Files, root: Path, t: Trail, open: set<Path>) {
    && [] in t.walked && t.walked[[]] == root
    && (forall r {:trigger Entered(fs, t, r)} | r in t.walked :: Entered(fs, t, r))
    && (forall f {:trigger Holds(fs, t, f)} | f in t.facts :: Holds(fs, t, f))
    && (forall d {:trigger EnteredVia(fs, t, d)} | d in t.via :: EnteredVia(fs, t, d))
    && (forall r, n {:trigger Recorded(fs, t, r, n)}
          | r in t.walked && r !in open && n in Names(fs, t.walked[r]) :: Recorded(fs, t, r, n))
  }

  /** A finished walk. */
  ghost predicate IsWalk(fs: Files, root: Path, t: Trail) {
    Sound(fs, root, t, {})
  }

  /** `os.ReadDir` lists a directory in ascending order, without repetition. */
  ghost predicate SortedListings(fs: Files) {
    forall d {:trigger Ascending(fs, d)} | d in fs :: Ascending(fs, d)
  }

  predicate Ascending(fs: Files, d: Path) {
    StrictlySorted(Names(fs, d))
  }

  lemma HoldsExtends(fs: Files, t: Trail, u: Trail, f: Fact)
    requires Extends(t, u) && Holds(fs, t, f)
    ensures Holds(fs, u, f)
  {
  }

  lemma EnteredExtends(fs: Files, t: Trail, u: Trail, r: Path)
    requires Extends(t, u) && r in t.walked && Entered(fs, t, r)
    ensures Entered(fs, u, r)
  {
  }

  lemma ViaExtends(fs: Files, t: Trail, u: Trail, d: Path)
    requires Extends(t, u) && d in t.via && EnteredVia(fs, t, d)
    ensures EnteredVia(fs, u, d)
  {
  }

  lemma RecordedExtends(fs: Files, t: Trail, u: Trail, r: Path, n: string)
    requires Extends(t, u) && r in t.walked && Recorded(fs, t, r, n)
    ensures Recorded(fs, u, r, n)
  {
  }

  /** What was sound stays sound in an extension that adds nothing but the given facts and directories. */
  lemma SoundExtends(fs: Files, root: Path, t: Trail, u: Trail, open: set<Path>, more: set<Path>)
    requires Sound(fs, root, t, open) && Extends(t, u)
    requires forall r | r in u.walked && r !in t.walked :: Entered(fs, u, r) && r in more
    requires forall f | f in u.facts && f !in t.facts :: Holds(fs, u, f)
    requires forall d | d in u.via && d !in t.via :: EnteredVia(fs, u, d)
    ensures Sound(fs, root, u, open + more)
  {
    forall r | r in u.walked ensures Entered(fs, u, r) {
      if r in t.walked { assert Entered(fs, t, r); EnteredExtends(fs, t, u, r); }
    }
    forall f | f in u.facts ensures Holds(fs, u, f) {
      if f in t.facts { assert Holds(fs, t, f); HoldsExtends(fs, t, u, f); }
    }
    forall d | d in u.via ensures EnteredVia(fs, u, d) {
      if d in t.via { assert EnteredVia(fs, t, d); ViaExtends(fs, t, u, d); }
    }
    forall r, n | r in u.walked && r !in open + more && n in Names(fs, u.walked[r]) ensures Recorded(fs, u, r, n) {
      assert Recorded(fs, t, r, n);
      RecordedExtends(fs, t, u, r, n);
    }
  }

  /** Recording a true fact keeps the trail sound. */
  lemma AddFact(fs: Files, root: Path, t: Trail, open: set<Path>, f: Fact)
    requires Sound(fs, root, t, open) && Holds(fs, t, f)
    ensures Sound(fs, root, t.(facts := t.facts + {f}), open)
    ensures Grown(t, t.(facts := t.facts + {f}), f.rel)
    ensures UpTo(t, f.rel) ==> UpTo(t.(facts := t.facts + {f}), f.rel)
  {
    var u := t.(facts := t.facts + {f});
    HoldsExtends(fs, t, u, f);
    SoundExtends(fs, root, t, u, open, {});
    assert open + {} == open;
  }

  /** The trail after entering `dir` as `rel`. */
  function Entering(fs: Files, t: Trail, rel: Path, dir: Path): (u: Trail)
    requires IsEntry(fs, t, rel)
    ensures u.via.Keys == if fs[Spot(t, rel)].Link? then t.via.Keys + {dir} else t.via.Keys
  {
    Trail(t.walked[rel := dir], t.facts, if fs[Spot(t, rel)].Link? then t.via[dir := rel] else t.via)
  }

  /** Entering a directory opens it. */
  lemma AddDir(fs: Files, root: Path, t: Trail, open: set<Path>, rel: Path, dir: Path)
    requires Sound(fs, root, t, open) && rel !in t.walked && UpTo(t, rel)
    requires IsEntry(fs, t, rel) && IsDir(fs, dir) && fs[dir].names.Some?
    requires if fs[Spot(t, rel)].Dir? then dir == Spot(t, rel) else fs[Spot(t, rel)] == Link(Some(dir)) && dir !in t.via
    ensures Sound(fs, root, Entering(fs, t, rel, dir), open + {rel})
    ensures Grown(t, Entering(fs, t, rel, dir), rel) && UpTo(Entering(fs, t, rel, dir), rel)
  {
    var u := Entering(fs, t, rel, dir);
    assert Parent(rel) != rel;
    assert Entered(fs, u, rel);
    SoundExtends(fs, root, t, u, open, {rel});
  }

  /** The first `i` names of the directory entered as `rel` are recorded. */
  ghost predicate RecordedPrefix(fs: Files, t: Trail, rel: Path, names: seq<string>, i: nat)
    requires rel in t.walked && i <= |names|
  {
    forall j {:trigger Recorded(fs, t, rel, names[j])} | 0 <= j < i :: Recorded(fs, t, rel, names[j])
  }

  lemma PrefixExtends(fs: Files, t: Trail, u: Trail, rel: Path, names: seq<string>, i: nat)
    requires Extends(t, u) && rel in t.walked && i < |names|
    requires RecordedPrefix(fs, t, rel, names, i) && Recorded(fs, u, rel, names[i])
    ensures RecordedPrefix(fs, u, rel, names, i + 1)
  {
    forall j | 0 <= j < i ensures Recorded(fs, u, rel, names[j]) {
      assert Recorded(fs, t, rel, names[j]);
      RecordedExtends(fs, t, u, rel, names[j]);
    }
  }

  /** Closing a directory all of whose entries are recorded. */
  lemma CloseDir(fs: Files, root: Path, t: Trail, open: set<Path>, rel: Path, names: seq<string>)
    requires Sound(fs, root, t, open + {rel}) && rel in t.walked && names == Names(fs, t.walked[rel])
    requires RecordedPrefix(fs, t, rel, names, |names|)
    ensures Sound(fs, root, t, open)
  {
    forall r, n | r in t.walked && r !in open && n in Names(fs, t.walked[r]) ensures Recorded(fs, t, r, n) {
      if r == rel {
        var j :| 0 <= j < |names| && names[j] == n;
        assert Recorded(fs, t, rel, names[j]);
      }
    }
  }

  // ---- reachable directories

  /** `b` is a child directory of `a`, or the directory a symlink in `a` leads to. */
  predicate DirStep(fs: Files, a: Path, b: Path) {
    exists n :: n in Names(fs, a) && a + [n] in fs && IsDir(fs, b) && (b == a + [n] || fs[a + [n]] == Link(Some(b)))
  }

  predicate DirChain(fs: Files, p: seq<Path>) {
    |p| >= 1 && forall i | 0 <= i < |p| - 1 :: DirStep(fs, p[i], p[i+1])
  }

  ghost predicate Reach(fs: Files, root: Path, d: Path) {
    exists p: seq<Path> :: DirChain(fs, p) && p[0] == root && p[|p|-1] == d
  }

  lemma ReachRoot(fs: Files, root: Path)
    ensures Reach(fs, root, root)
  {
    assert DirChain(fs, [root]);
  }

  lemma ReachStep(fs: Files, root: Path, d: Path, e: Path)
    requires Reach(fs, root, d) && DirStep(fs, d, e)
    ensures Reach(fs, root, e)
  {
    var p :| DirChain(fs, p) && p[0] == root && p[|p|-1] == d;
    var q := p + [e];
    assert DirChain(fs, q) && q[0] == root && q[|q|-1] == e;
  }

  /** An entry that lstat, readlink or a read fails on. */
  predicate Unreadable(fs: Files, d: Path, n: string) {
    d + [n] !in fs ||
    match fs[d + [n]]
    case Regular(data) => data.None?
    case Link(target) =>
      || target.None? || target.value !in fs
      || (!IsDir(fs, target.value) && Read(fs, target.value).None?)
    case _ => false
  }

  /** Somewhere below the root there is a directory that cannot be listed or an entry that cannot be read. */
  ghost predicate Obstructed(fs: Files, root: Path) {
    exists d :: Reach(fs, root, d) && BadDir(fs, d)
  }

  predicate BadDir(fs: Files, d: Path) {
    || !IsDir(fs, d) || fs[d].names.None?
    || exists i :: 0 <= i < |fs[d].names.value| && Unreadable(fs, d, fs[d].names.value[i])
  }

  /** Every entered directory is reachable. */
  lemma {:induction false} WalkedReachable(fs: Files, root: Path, t: Trail, open: set<Path>, r: Path)
    requires Sound(fs, root, t, open) && r in t.walked
    ensures Reach(fs, root, t.walked[r])
    decreases |r|
  {
    if r == [] {
      ReachRoot(fs, root);
    } else {
      assert Entered(fs, t, r);
      WalkedReachable(fs, root, t, open, Parent(r));
      assert DirStep(fs, t.walked[Parent(r)], t.walked[r]);
      ReachStep(fs, root, t.walked[Parent(r)], t.walked[r]);
    }
  }

  lemma BadEntry(fs: Files, root: Path, d: Path, n: string)
    requires Reach(fs, root, d) && n in Names(fs, d) && Unreadable(fs, d, n)
    ensures Obstructed(fs, root)
  {
    var i :| 0 <= i < |fs[d].names.value| && fs[d].names.value[i] == n;
    assert BadDir(fs, d);
  }

  /** An entry that leads to a directory that cannot be listed. */
  lemma Unlistable(fs: Files, root: Path, t: Trail, open: set<Path>, rel: Path, dir: Path)
    requires Sound(fs, root, t, open) && IsEntry(fs, t, rel) && IsDir(fs, dir) && fs[dir].names.None?
    requires if fs[Spot(t, rel)].Dir? then dir == Spot(t, rel) else fs[Spot(t, rel)] == Link(Some(dir))
    ensures Obstructed(fs, root)
  {
    WalkedReachable(fs, root, t, open, Parent(rel));
    assert DirStep(fs, t.walked[Parent(rel)], dir);
    ReachStep(fs, root, t.walked[Parent(rel)], dir);
    assert BadDir(fs, dir);
  }

  // ---- list entries

  datatype Entry = Entry(key: string, sha: string)

  const SEPARATOR: string := "::"
  const TARGET_SUFFIX: string := "::SYMLINK_TARGET"

  function RelText(rel: Path): string { Join(rel) }

  function PathText(p: Path): string { "/" + Join(p) }

  /** The list entry for a fact under the root called `rootName`; `sha` is the hex SHA-256 of a content. */
  function EntryOf(sha: string -> string, rootName: string, f: Fact): Entry {
    match f
    case FileAt(rel, data) => Entry(rootName + SEPARATOR + RelText(rel), sha(data))
    case LinkAt(rel, target) => Entry(rootName + SEPARATOR + RelText(rel) + TARGET_SUFFIX, PathText(target))
  }

  /** The logical path of an entry as the walk builds it: the directory's path, a slash and the name. */
  lemma {:induction false} EntryPath(rel: Path, name: string)
    ensures RelText([name]) == name
    ensures rel != [] ==> RelText(rel + [name]) == RelText(rel) + "/" + name
  {
    if |rel| > 1 {
      EntryPath(rel[1..], name);
      assert (rel + [name])[1..] == rel[1..] + [name] && (rel + [name])[0] == rel[0];
    } else if |rel| == 1 {
      assert rel == [rel[0]] && (rel + [name])[1..] == [name];
    }
  }

  /** The entries of a file and of a symlink, written out. */
  lemma EntryTexts(sha: string -> string, name: string)
    ensures EntryOf(sha, "/r", FileAt(["a", name], "x")) == Entry("/r::a/" + name, sha("x"))
    ensures EntryOf(sha, "/r", LinkAt(["a", name], ["t", "u"])) == Entry("/r::a/" + name + "::SYMLINK_TARGET", "/t/u")
  {
    EntryPath(["a"], name);
    EntryPath(["t"], "u");
    assert ["a"] + [name] == ["a", name] && ["t"] + ["u"] == ["t", "u"];
    assert RelText(["a"]) == "a" && Join(["t"]) == "t";
    assert "/r::" + ("a/" + name) == "/r::a/" + name;
  }

  /** The facts a list entry stands for. */
  ghost function Behind(sha: string -> string, rootName: string, facts: set<Fact>, e: Entry): set<Fact> {
    set f | f in facts && EntryOf(sha, rootName, f) == e
  }

  /** The list holds one entry for each fact, in some order. */
  ghost predicate Lists(sha: string -> string, rootName: string, entries: seq<Entry>, facts: set<Fact>) {
    forall e {:trigger Behind(sha, rootName, facts, e)} ::
      multiset(entries)[e] == |Behind(sha, rootName, facts, e)|
  }

  lemma ListsMore(sha: string -> string, rootName: string, entries: seq<Entry>, facts: set<Fact>, f: Fact)
    requires Lists(sha, rootName, entries, facts) && f !in facts
    ensures Lists(sha, rootName, entries + [EntryOf(sha, rootName, f)], facts + {f})
  {
    var longer := entries + [EntryOf(sha, rootName, f)];
    forall e ensures multiset(longer)[e] == |Behind(sha, rootName, facts + {f}, e)| {
      var some, all := Behind(sha, rootName, facts, e), Behind(sha, rootName, facts + {f}, e);
      assert all == if EntryOf(sha, rootName, f) == e then some + {f} else some;
    }
  }

  lemma ListsMember(sha: string -> string, rootName: string, entries: seq<Entry>, facts: set<Fact>, e: Entry)
    requires Lists(sha, rootName, entries, facts)
    ensures e in entries <==> exists f :: f in facts && e == EntryOf(sha, rootName, f)
  {
    var found := Behind(sha, rootName, facts, e);
    assert e in entries <==> multiset(entries)[e] > 0;
    if found != {} {
      var f :| f in found;
      assert f in facts && e == EntryOf(sha, rootName, f);
    }
    if f :| f in facts && e == EntryOf(sha, rootName, f) { assert f in found; }
  }
}
