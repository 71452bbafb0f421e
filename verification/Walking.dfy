/** The closure that walks one root (internal/assay/snapshot.go, hashPathTree). */
module Walking {
  import opened Results
  import opened Order
  import opened TreeWalk

  datatype WalkError = ReadFailed | LstatFailed | ResolveFailed | StatFailed

  ghost predicate Bounded(fs: Files, bound: nat) {
    forall p {:trigger Short(p, bound)} | p in fs :: Short(p, bound)
  }

  predicate Short(p: Path, bound: nat) {
    |p| <= bound
  }

  /** The entry list of one root and the symlinked directories already entered. */
  class Walker {
    const fs: Files
    const root: Path
    const rootName: string
    const sha: string -> string
    var entries: seq<Entry>
    var visited: set<Path>
    ghost const bound: nat
    ghost var trail: Trail

    constructor (fs: Files, root: Path, rootName: string, sha: string -> string, ghost bound: nat)
      requires IsDir(fs, root) && fs[root].names.Some? && SortedListings(fs) && Bounded(fs, bound)
      ensures this.fs == fs && this.root == root && this.rootName == rootName && this.sha == sha && this.bound == bound
      ensures trail == Trail(map[[] := root], {}, map[]) && Valid({[]}) && visited == trail.via.Keys
    {
      this.fs, this.root, this.rootName, this.sha, this.bound := fs, root, rootName, sha, bound;
      entries, visited, trail := [], {}, Trail(map[[] := root], {}, map[]);
    }

    /** The trail is sound and listed; the directories in `open` are still being walked. */
    ghost predicate Valid(open: set<Path>)
      reads this
    {
      && Sound(fs, root, trail, open) && Lists(sha, rootName, entries, trail.facts)
      && SortedListings(fs) && Bounded(fs, bound)
    }

    method Add(ghost f: Fact, e: Entry, ghost open: set<Path>)
      requires Valid(open) && Holds(fs, trail, f) && UpTo(trail, f.rel)
      requires e == EntryOf(sha, rootName, f) && f !in trail.facts
      modifies this`entries, this`trail
      ensures Valid(open) && trail == old(trail).(facts := old(trail).facts + {f})
      ensures Grown(old(trail), trail, f.rel) && UpTo(trail, f.rel)
    {
      AddFact(fs, root, trail, open, f);
      ListsMore(sha, rootName, entries, trail.facts, f);
      entries := entries + [e];
      trail := trail.(facts := trail.facts + {f});
    }

    /** Enters a directory under the logical path `rel`. */
    method Walk(rel: Path, dir: Path, ghost open: set<Path>) returns (err: Option<WalkError>)
      requires Valid(open) && UpTo(trail, rel) && rel !in trail.walked
      requires IsEntry(fs, trail, rel) && IsDir(fs, dir)
      requires if fs[Spot(trail, rel)].Dir? then dir == Spot(trail, rel) && visited == trail.via.Keys
               else fs[Spot(trail, rel)] == Link(Some(dir)) && dir !in trail.via && visited == trail.via.Keys + {dir}
      modifies this`entries, this`visited, this`trail
      ensures err.None? ==> Valid(open) && visited == trail.via.Keys && Grown(old(trail), trail, rel)
      ensures err.None? ==> rel in trail.walked
      ensures err.None? && fs[old(Spot(trail, rel))].Link? ==> dir in trail.via && trail.via[dir] == rel
      ensures err.Some? ==> Obstructed(fs, root)
      decreases |fs.Keys - visited|, bound - |dir|, 3
    {
      if fs[dir].names.None? {
        Unlistable(fs, root, trail, open, rel, dir);
        return Some(ReadFailed);
      }
      AddDir(fs, root, trail, open, rel, dir);
      trail := Entering(fs, trail, rel, dir);
      ghost var entered := trail;
      err := WalkEntries(rel, dir, open);
      if err.None? { GrownTwice(old(trail), entered, trail, rel, rel); }
    }

    method WalkEntries(rel: Path, dir: Path, ghost open: set<Path>) returns (err: Option<WalkError>)
      requires Valid(open + {rel}) && visited == trail.via.Keys && rel in trail.walked && trail.walked[rel] == dir
      requires UpTo(trail, rel)
      modifies this`entries, this`visited, this`trail
      ensures err.None? ==> Valid(open) && visited == trail.via.Keys && Grown(old(trail), trail, rel)
      ensures err.Some? ==> Obstructed(fs, root)
      decreases |fs.Keys - visited|, bound - |dir|, 2
    {
      assert Entered(fs, trail, rel);
      var names := fs[dir].names.value;
      assert StrictlySorted(names) by { assert Ascending(fs, dir) && names == Names(fs, dir); }
      if names != [] { BeforeDeeper(trail, rel, names[0]); }
      for i := 0 to |names|
        invariant Valid(open + {rel}) && visited == trail.via.Keys && Grown(old(trail), trail, rel)
        invariant i < |names| ==> Before(trail, rel + [names[i]])
        invariant RecordedPrefix(fs, trail, rel, names, i)
      {
        ghost var before := trail;
        Fewer(fs.Keys, old(visited), visited);
        err := VisitEntry(rel, dir, names[i], open + {rel});
        if err.Some? {
          return;
        }
        EntryDone(fs, old(trail), before, trail, rel, names, i);
      }
      CloseDir(fs, root, trail, open, rel, names);
      err := None;
    }

    /** One directory entry. */
    method VisitEntry(rel: Path, dir: Path, name: string, ghost open: set<Path>) returns (err: Option<WalkError>)
      requires Valid(open) && visited == trail.via.Keys && rel in trail.walked && trail.walked[rel] == dir
      requires name in Names(fs, dir) && Before(trail, rel + [name])
      modifies this`entries, this`visited, this`trail
      ensures err.None? ==> Valid(open) && visited == trail.via.Keys && Grown(old(trail), trail, rel + [name])
      ensures err.None? ==> Recorded(fs, trail, rel, name)
      ensures err.Some? ==> Obstructed(fs, root)
      decreases |fs.Keys - visited|, bound - |dir|, 1
    {
      var full, entryRel := dir + [name], rel + [name];
      assert Parent(entryRel) == rel && Base(entryRel) == name;
      BeforeFresh(trail, entryRel);
      if Unreadable(fs, dir, name) { UnreadableEntry(fs, root, trail, open, rel, name); }
      if full !in fs {
        return Some(LstatFailed);
      }
      match fs[full] {
        case Link(target) =>
          if target.None? {
            return Some(ResolveFailed);
          }
          err := FollowLink(rel, dir, name, target.value, open);
        case Dir(_) =>
          assert Short(full, bound);
          err := Walk(entryRel, full, open);
        case Regular(data) =>
          if data.None? {
            return Some(ReadFailed);
          }
          ghost var f := FileAt(entryRel, data.value);
          FreshFact(trail, f);
          Add(f, Entry(rootName + SEPARATOR + RelText(entryRel), sha(data.value)), open);
          err := None;
        case Special(_) =>
          err := None;
      }
    }

    method FollowLink(rel: Path, dir: Path, name: string, resolved: Path, ghost open: set<Path>)
      returns (err: Option<WalkError>)
      requires Valid(open) && visited == trail.via.Keys && rel in trail.walked && trail.walked[rel] == dir
      requires name in Names(fs, dir) && dir + [name] in fs && fs[dir + [name]] == Link(Some(resolved))
      requires Before(trail, rel + [name])
      modifies this`entries, this`visited, this`trail
      ensures err.None? ==> Valid(open) && visited == trail.via.Keys && Grown(old(trail), trail, rel + [name])
      ensures err.None? ==> Recorded(fs, trail, rel, name)
      ensures err.Some? ==> Obstructed(fs, root)
      decreases |fs.Keys - visited|, bound - |dir|, 0
    {
      var entryRel := rel + [name];
      assert Parent(entryRel) == rel && Base(entryRel) == name;
      BeforeFresh(trail, entryRel);
      if Unreadable(fs, dir, name) { UnreadableEntry(fs, root, trail, open, rel, name); }
      if resolved !in fs {
        return Some(StatFailed);
      }
      ghost var f := LinkAt(entryRel, resolved);
      FreshFact(trail, f);
      Add(f, Entry(rootName + SEPARATOR + RelText(entryRel) + TARGET_SUFFIX, PathText(resolved)), open);
      ghost var linked := trail;
      if fs[resolved].Dir? {
        if resolved in visited {
          ViaBefore(fs, root, trail, open, resolved, entryRel);
          return None;
        }
        FewerByOne(fs.Keys, visited, resolved);
        visited := visited + {resolved};
        err := Walk(entryRel, resolved, open);
        if err.None? { GrownTwice(old(trail), linked, trail, entryRel, entryRel); }
        return;
      }
      var data := Read(fs, resolved);
      if data.None? {
        return Some(ReadFailed);
      }
      ghost var g := FileAt(entryRel, data.value);
      assert g !in trail.facts by { FreshFact(old(trail), g); }
      Add(g, Entry(rootName + SEPARATOR + RelText(entryRel), sha(data.value)), open);
      GrownTwice(old(trail), linked, trail, entryRel, entryRel);
      err := None;
    }
  }

  /** Bookkeeping after one entry. */
  lemma EntryDone(fs: Files, start: Trail, t: Trail, u: Trail, rel: Path, names: seq<string>, i: nat)
    requires i < |names| && StrictlySorted(names) && rel in t.walked
    requires Grown(start, t, rel) && Before(t, rel + [names[i]]) && Grown(t, u, rel + [names[i]])
    requires RecordedPrefix(fs, t, rel, names, i) && rel in u.walked && Recorded(fs, u, rel, names[i])
    ensures Grown(start, u, rel) && RecordedPrefix(fs, u, rel, names, i + 1)
    ensures i + 1 < |names| ==> Before(u, rel + [names[i+1]])
  {
    GrownTwice(start, t, u, rel, rel + [names[i]]);
    PrefixExtends(fs, t, u, rel, names, i);
    if i + 1 < |names| { BeforeSibling(t, u, rel, names[i], names[i+1]); }
  }

  lemma UnreadableEntry(fs: Files, root: Path, t: Trail, open: set<Path>, rel: Path, name: string)
    requires Sound(fs, root, t, open) && rel in t.walked && name in Names(fs, t.walked[rel])
    requires Unreadable(fs, t.walked[rel], name)
    ensures Obstructed(fs, root)
  {
    WalkedReachable(fs, root, t, open, rel);
    BadEntry(fs, root, t.walked[rel], name);
  }

  /** A directory met again was entered through an earlier symlink. */
  lemma ViaBefore(fs: Files, root: Path, t: Trail, open: set<Path>, d: Path, rel: Path)
    requires Sound(fs, root, t, open) && UpTo(t, rel) && d in t.via
    ensures Expanded(t, d, rel)
  {
    assert EnteredVia(fs, t, d);
    assert t.via[d] in Paths(t);
  }

  lemma Fewer<T>(all: set<T>, a: set<T>, b: set<T>)
    requires a <= b
    ensures |all - b| <= |all - a|
  {
    assert all - a == (all - b) + ((all - a) - (all - b));
  }

  lemma FewerByOne<T>(all: set<T>, a: set<T>, x: T)
    requires x in all && x !in a
    ensures |all - (a + {x})| < |all - a|
  {
    assert all - a == (all - (a + {x})) + {x};
  }
}
