/** The text keys of the tree hash: when they name one logical path, and when two roots' keys can collide. */
module TreeKeys {
  import opened TreeWalk
  import opened Text

  predicate RelOk(rel: Path) { rel != [] && forall n | n in rel :: Name(n) }

  predicate PlaceOk(p: Path) { forall n | n in p :: Name(n) }

  lemma RelTextInjective(a: Path, b: Path)
    requires RelOk(a) && RelOk(b) && RelText(a) == RelText(b)
    ensures a == b
  {
    SplitJoin(a);
    SplitJoin(b);
  }

  lemma PathTextInjective(a: Path, b: Path)
    requires PlaceOk(a) && PlaceOk(b) && PathText(a) == PathText(b)
    ensures a == b
  {
    assert Join(a) == PathText(a)[1..] == PathText(b)[1..] == Join(b);
    if a != [] { JoinNonEmpty(a); SplitJoin(a); }
    if b != [] { JoinNonEmpty(b); SplitJoin(b); }
  }

  lemma JoinNonEmpty(a: Path)
    requires RelOk(a)
    ensures Join(a) != ""
  {
    assert a[0] in a;
  }

  function Key(rootName: string, rel: Path): string { rootName + SEPARATOR + RelText(rel) }

  /** Some entry of the one root has the key of some entry of the other. */
  ghost predicate Collide(a: string, b: string) {
    exists x: Path, y: Path :: RelOk(x) && RelOk(y) && Key(a, x) == Key(b, y)
  }

  /** All slash-separated segments but the last are names of directory entries. */
  predicate GoodStem(t: string) {
    forall i | 0 <= i < |Split(t)| - 1 :: Name(Split(t)[i])
  }

  /** The root `b` continues the root `a` with a colon, or with the separator and a relative path. */
  predicate Ambiguous(a: string, b: string) {
    b == a + ":" || (a + SEPARATOR <= b && GoodStem(b[|a|+2..]))
  }

  /** A stem, the separator and a name: a relative path of names. */
  lemma StemPath(t: string)
    requires GoodStem(t)
    ensures RelOk(Split(t + "::f")) && RelText(Split(t + "::f")) == t + "::f"
  {
    var u := "::f";
    var segs := Split(t);
    SplitExtend(t, u);
    JoinSplit(t + u);
    var x := Split(t + u);
    forall n | n in x ensures Name(n) {
      var i :| 0 <= i < |x| && x[i] == n;
      if i < |segs| - 1 {
        assert x[i] == segs[i];
      } else {
        assert x[i] == segs[|segs|-1] + u && x[i][|x[i]|-1] == 'f';
      }
    }
  }

  lemma AmbiguousCollides(a: string, b: string)
    requires Ambiguous(a, b)
    ensures Collide(a, b)
  {
    var y := ["f"];
    assert RelText(y) == "f";
    if b == a + ":" {
      var x := [":f"];
      assert RelText(x) == ":f";
      assert Key(a, x) == a + ":" + "::" + "f" == Key(b, y);
      assert RelOk(x) && RelOk(y);
    } else {
      var t := b[|a|+2..];
      StemPath(t);
      assert b == a + SEPARATOR + t;
      assert Key(a, Split(t + "::f")) == a + SEPARATOR + (t + "::f") == b + SEPARATOR + "f" == Key(b, y);
      assert RelOk(y);
    }
  }

  lemma CollidingIsAmbiguous(a: string, b: string, x: Path, y: Path)
    requires |a| <= |b| && a != b && RelOk(x) && RelOk(y) && Key(a, x) == Key(b, y)
    ensures Ambiguous(a, b)
  {
    var k := Key(a, x);
    assert k == a + SEPARATOR + RelText(x) == b + SEPARATOR + RelText(y);
    assert b == k[..|b|] && a == k[..|a|];
    assert k[|a|] == ':' && k[|a|+1] == ':';
    if |b| == |a| + 1 {
      assert b == a + ":";
    } else {
      var t := b[|a|+2..];
      assert b == a + SEPARATOR + t;
      assert RelText(x) == k[|a|+2..] == t + (SEPARATOR + RelText(y));
      SplitStem(t, SEPARATOR + RelText(y));
      SplitJoin(x);
      forall i | 0 <= i < |Split(t)| - 1 ensures Name(Split(t)[i]) {
        assert x[i] == Split(t)[i] && x[i] in x;
      }
    }
  }

  /** Two different roots can produce the same key exactly when one continues the other ambiguously. */
  lemma CollisionExact(a: string, b: string)
    requires a != b
    ensures Collide(a, b) <==> Ambiguous(a, b) || Ambiguous(b, a)
  {
    if Collide(a, b) {
      var x: Path, y: Path :| RelOk(x) && RelOk(y) && Key(a, x) == Key(b, y);
      if |a| <= |b| {
        CollidingIsAmbiguous(a, b, x, y);
      } else {
        CollidingIsAmbiguous(b, a, y, x);
      }
    }
    if Ambiguous(a, b) { AmbiguousCollides(a, b); }
    if Ambiguous(b, a) {
      AmbiguousCollides(b, a);
      var x: Path, y: Path :| RelOk(x) && RelOk(y) && Key(b, x) == Key(a, y);
      assert Key(a, y) == Key(b, x);
    }
  }

  /** No two different roots of the list can collide. */
  predicate Unambiguous(roots: seq<string>) {
    forall a, b | a in roots && b in roots && a != b :: !Ambiguous(a, b)
  }

  /** The hash stands for its input, and never looks like a path. */
  ghost predicate IsDigest(sha: string -> string) {
    && (forall x {:trigger sha(x)} :: sha(x) != "" && sha(x)[0] != '/')
    && (forall x, y {:trigger sha(x), sha(y)} :: sha(x) == sha(y) ==> x == y)
  }

  predicate FactOk(f: Fact) {
    RelOk(f.rel) && (f.LinkAt? ==> PlaceOk(f.target))
  }

  /** Under unambiguous roots a list entry comes from one root and one fact. */
  lemma EntryInjective(sha: string -> string, roots: seq<string>, a: string, f: Fact, b: string, g: Fact)
    requires IsDigest(sha) && Unambiguous(roots) && a in roots && b in roots && FactOk(f) && FactOk(g)
    requires EntryOf(sha, a, f) == EntryOf(sha, b, g)
    ensures a == b && f == g
  {
    SameKind(sha, a, f, b, g);
    var p, q := Key(a, f.rel), Key(b, g.rel);
    if f.LinkAt? {
      assert p + TARGET_SUFFIX == q + TARGET_SUFFIX;
      assert p == (p + TARGET_SUFFIX)[..|p|] && q == (q + TARGET_SUFFIX)[..|q|];
    }
    assert p == q;
    if a != b {
      assert Collide(a, b);
      CollisionExact(a, b);
    }
    assert RelText(f.rel) == p[|a|+2..] == q[|b|+2..] == RelText(g.rel);
    RelTextInjective(f.rel, g.rel);
    if f.LinkAt? { PathTextInjective(f.target, g.target); }
  }

  /** The value column tells links from files: only a path starts with a slash. */
  lemma ValueTellsKind(sha: string -> string, a: string, f: Fact)
    requires IsDigest(sha)
    ensures EntryOf(sha, a, f).sha != "" && (f.LinkAt? <==> EntryOf(sha, a, f).sha[0] == '/')
  {
  }

  lemma SameKind(sha: string -> string, a: string, f: Fact, b: string, g: Fact)
    requires IsDigest(sha) && EntryOf(sha, a, f) == EntryOf(sha, b, g)
    ensures f.LinkAt? <==> g.LinkAt?
  {
    ValueTellsKind(sha, a, f);
    ValueTellsKind(sha, b, g);
  }
}
