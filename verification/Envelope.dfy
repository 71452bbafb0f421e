/**
 The write envelope of a plan: lexical path cleaning and the containment test on cleaned patterns
 (internal/contracts/plan.go, envelopeCovers, envelopePatternCovers, normalizePattern).
 */
module Envelope {
  import opened Text

  // ---- where a pattern points

  /** A place relative to the workspace: `ups` levels above it, then down `path`. */
  datatype Place = Place(rooted: bool, ups: nat, path: seq<string>)

  /** One path segment, read literally. */
  function Step(l: Place, seg: string): Place {
    if seg == "" || seg == "." then l
    else if seg == ".." then
      if l.path != [] then l.(path := l.path[..|l.path|-1])
      else if l.rooted then l
      else l.(ups := l.ups + 1)
    else l.(path := l.path + [seg])
  }

  function Walk(l: Place, segs: seq<string>): Place
    decreases |segs|
  {
    if segs == [] then l else Walk(Step(l, segs[0]), segs[1..])
  }

  function Start(p: string): Place {
    Place(p != "" && p[0] == '/', 0, [])
  }

  /** The place a slash-separated pattern denotes, one segment at a time. */
  function Resolve(p: string): Place {
    Walk(Start(p), Split(p))
  }

  function Parents(n: nat): (r: seq<string>)
    ensures |r| == n && forall s | s in r :: s == ".."
  {
    seq(n, _ => "..")
  }

  /** The shortest text for a place. */
  function Render(l: Place): string {
    if l.rooted then "/" + Join(l.path)
    else if l.ups == 0 && l.path == [] then "."
    else Join(Parents(l.ups) + l.path)
  }

  /** `path.Clean`. */
  function Clean(p: string): string {
    Render(Resolve(p))
  }

  function Slashes(p: string): (r: string)
    ensures |r| == |p| && forall i | 0 <= i < |p| :: r[i] == if p[i] == '\\' then '/' else p[i]
  {
    seq(|p|, i requires 0 <= i < |p| => if p[i] == '\\' then '/' else p[i])
  }

  function Normalize(p: string): string {
    Clean(Slashes(p))
  }

  predicate Proper(l: Place) {
    (l.rooted ==> l.ups == 0) && forall s | s in l.path :: Name(s)
  }

  lemma {:induction false} WalkProper(l: Place, segs: seq<string>)
    requires Proper(l) && forall s | s in segs :: '/' !in s
    ensures Proper(Walk(l, segs)) && Walk(l, segs).rooted == l.rooted
    decreases |segs|
  {
    if segs != [] { WalkProper(Step(l, segs[0]), segs[1..]); }
  }

  lemma {:induction false} WalkConcat(l: Place, a: seq<string>, b: seq<string>)
    ensures Walk(l, a + b) == Walk(Walk(l, a), b)
    decreases |a|
  {
    if a == [] {
      assert a + b == b;
    } else {
      WalkConcat(Step(l, a[0]), a[1..], b);
      assert (a + b)[1..] == a[1..] + b;
    }
  }

  lemma {:induction false} WalkNames(l: Place, names: seq<string>)
    requires forall s | s in names :: Name(s)
    ensures Walk(l, names) == l.(path := l.path + names)
    decreases |names|
  {
    if names == [] {
      assert l.path + names == l.path;
    } else {
      assert Name(names[0]);
      WalkNames(Step(l, names[0]), names[1..]);
      assert l.path + names == (l.path + [names[0]]) + names[1..];
    }
  }

  lemma {:induction false} WalkParents(l: Place, n: nat)
    requires !l.rooted && l.path == []
    ensures Walk(l, Parents(n)) == l.(ups := l.ups + n)
    decreases n
  {
    if n > 0 {
      assert Parents(n)[1..] == Parents(n - 1);
      WalkParents(Step(l, ".."), n - 1);
    }
  }

  /** The segments of a rendered place. */
  lemma RenderSegments(l: Place)
    requires Proper(l)
    ensures l.rooted ==> Split(Render(l)) == [""] + (if l.path == [] then [""] else l.path)
    ensures !l.rooted ==> Split(Render(l)) == if l.ups == 0 && l.path == [] then ["."] else Parents(l.ups) + l.path
    ensures Render(l) != "" && Start(Render(l)) == Place(l.rooted, 0, [])
  {
    if l.rooted {
      SplitConcat("", Join(l.path));
      assert "" + "/" + Join(l.path) == "/" + Join(l.path);
      SplitPlain("");
      if l.path != [] { SplitJoin(l.path); }
    } else if l.ups == 0 && l.path == [] {
      SplitPlain(".");
    } else {
      var segs := Parents(l.ups) + l.path;
      SplitJoin(segs);
      assert segs[0] != "" && segs[0][0] != '/' by {
        assert segs[0] in segs;
        assert '/' !in segs[0];
      }
      assert Join(segs)[0] == segs[0][0];
    }
  }

  lemma WalkRooted(path: seq<string>)
    requires forall s | s in path :: Name(s)
    ensures Walk(Place(true, 0, []), [""] + (if path == [] then [""] else path)) == Place(true, 0, path)
  {
    var start, rest := Place(true, 0, []), if path == [] then [""] else path;
    assert Walk(start, [""] + rest) == Walk(start, rest) by {
      WalkConcat(start, [""], rest);
      assert Walk(start, [""]) == start;
    }
    if path == [] {
      assert Walk(start, [""]) == start;
    } else {
      assert Walk(start, path) == Place(true, 0, path) by {
        WalkNames(start, path);
        assert [] + path == path;
      }
    }
  }

  lemma WalkRelative(ups: nat, path: seq<string>)
    requires forall s | s in path :: Name(s)
    ensures Walk(Place(false, 0, []), Parents(ups) + path) == Place(false, ups, path)
  {
    var start, above := Place(false, 0, []), Place(false, ups, []);
    assert Walk(start, Parents(ups) + path) == Walk(above, path) by {
      WalkConcat(start, Parents(ups), path);
      WalkParents(start, ups);
    }
    assert Walk(above, path) == Place(false, ups, path) by {
      WalkNames(above, path);
      assert [] + path == path;
    }
  }

  /** Rendering a place and resolving the text again gives the place back. */
  lemma ResolveRender(l: Place)
    requires Proper(l)
    ensures Resolve(Render(l)) == l
  {
    RenderSegments(l);
    if l.rooted {
      WalkRooted(l.path);
    } else if l.ups == 0 && l.path == [] {
      assert Walk(Place(false, 0, []), ["."]) == l;
    } else {
      WalkRelative(l.ups, l.path);
    }
  }

  lemma ResolveProper(p: string)
    ensures Proper(Resolve(p))
  {
    WalkProper(Start(p), Split(p));
  }

  /** Cleaning does not move a pattern. */
  lemma CleanKeepsPlace(p: string)
    ensures Resolve(Clean(p)) == Resolve(p)
  {
    ResolveProper(p);
    ResolveRender(Resolve(p));
  }

  // ---- the containment test

  /** The suffix of a declared recursive tree. */
  const RECURSIVE: string := "/" + "**"

  predicate HasPrefix(s: string, prefix: string) {
    prefix <= s
  }

  predicate HasSuffix(s: string, suffix: string) {
    |suffix| <= |s| && s[|s|-|suffix|..] == suffix
  }

  function TrimSuffix(s: string, suffix: string): string {
    if HasSuffix(s, suffix) then s[..|s|-|suffix|] else s
  }

  /** `envelopePatternCovers` on patterns that are already cleaned. */
  predicate CleanCovers(declared: string, candidate: string) {
    || declared == candidate
    || (HasSuffix(declared, RECURSIVE) &&
        var base, c := TrimSuffix(declared, RECURSIVE), TrimSuffix(candidate, RECURSIVE);
        c == base || HasPrefix(c, base + "/"))
  }

  predicate PatternCovers(declared: string, candidate: string) {
    CleanCovers(Normalize(declared), Normalize(candidate))
  }

  /** Some declared pattern accepts the candidate. */
  ghost predicate Covered(envelope: seq<string>, candidate: string) {
    exists e :: e in envelope && PatternCovers(e, candidate)
  }

  method EnvelopeCovers(envelope: seq<string>, candidate: string) returns (covered: bool)
    ensures covered <==> Covered(envelope, candidate)
  {
    for i := 0 to |envelope|
      invariant forall n | 0 <= n < i :: !PatternCovers(envelope[n], candidate)
    {
      if PatternCovers(envelope[i], candidate) {
        return true;
      }
    }
    return false;
  }

  /** The place a raw pattern denotes. */
  function Denotes(p: string): Place {
    Resolve(Slashes(p))
  }

  predicate AtOrBelow(base: Place, l: Place) {
    base.rooted == l.rooted && base.ups == l.ups && base.path <= l.path
  }

  /** What a reader expects an accepted candidate to be. */
  predicate Within(declared: string, candidate: string) {
    || Normalize(declared) == Normalize(candidate)
    || (var d := Denotes(declared);
        d.path != [] && d.path[|d.path|-1] == "**" &&
        AtOrBelow(d.(path := d.path[..|d.path|-1]), Denotes(candidate)))
  }

  // The declared pattern cleans to parent steps followed by the recursive wildcard, and nothing else.
  predicate OnlyParents(declared: string) {
    var d := Denotes(declared);
    !d.rooted && d.ups >= 1 && d.path == ["**"]
  }

  lemma CoversTransitive(a: string, b: string, c: string)
    requires PatternCovers(a, b) && PatternCovers(b, c)
    ensures PatternCovers(a, c)
  {
    var x, y, z := Normalize(a), Normalize(b), Normalize(c);
    if x != y && y != z {
      DifferentBases(x, y);
      PrefixThrough(TrimSuffix(x, RECURSIVE), TrimSuffix(y, RECURSIVE), TrimSuffix(z, RECURSIVE));
    }
  }

  /** Two different recursive patterns have different bases. */
  lemma DifferentBases(x: string, y: string)
    requires HasSuffix(x, RECURSIVE) && HasSuffix(y, RECURSIVE) && x != y
    ensures TrimSuffix(x, RECURSIVE) != TrimSuffix(y, RECURSIVE)
  {
    assert x == TrimSuffix(x, RECURSIVE) + RECURSIVE;
    assert y == TrimSuffix(y, RECURSIVE) + RECURSIVE;
  }

  lemma PrefixThrough(a: string, b: string, c: string)
    requires HasPrefix(b, a + "/") && (c == b || HasPrefix(c, b + "/"))
    ensures HasPrefix(c, a + "/")
  {
    assert c == b || b == c[..|b|];
  }

  lemma {:induction false} WalkDown(l: Place, segs: seq<string>)
    requires ".." !in segs
    ensures AtOrBelow(l, Walk(l, segs))
    decreases |segs|
  {
    if segs != [] { WalkDown(Step(l, segs[0]), segs[1..]); }
  }

  /** A recursive pattern splits into its base and a final wildcard. */
  lemma SplitBase(dn: string)
    requires HasSuffix(dn, RECURSIVE)
    ensures Split(dn) == Split(TrimSuffix(dn, RECURSIVE)) + ["**"]
    ensures Walk(Start(dn), Split(TrimSuffix(dn, RECURSIVE))).(path := []) == Resolve(dn).(path := [])
    ensures Walk(Start(dn), Split(TrimSuffix(dn, RECURSIVE))).path + ["**"] == Resolve(dn).path
  {
    var base := TrimSuffix(dn, RECURSIVE);
    assert dn == base + "/" + "**";
    SplitConcat(base, "**");
    SplitPlain("**");
    WalkConcat(Start(dn), Split(base), ["**"]);
    var l := Walk(Start(dn), Split(base));
    assert Walk(l, ["**"]) == Step(l, "**");
  }

  /** The segments of an accepted candidate continue those of the declared base. */
  lemma CandidateSegments(dn: string, cn: string) returns (more: seq<string>)
    requires CleanCovers(dn, cn) && dn != cn && cn != ""
    ensures HasSuffix(dn, RECURSIVE) && Split(cn) == Split(TrimSuffix(dn, RECURSIVE)) + more && Start(cn) == Start(dn)
  {
    var base, c := TrimSuffix(dn, RECURSIVE), TrimSuffix(cn, RECURSIVE);
    assert dn == base + RECURSIVE;
    if c == base {
      assert HasSuffix(cn, RECURSIVE) ==> cn == c + RECURSIVE;
      assert cn == base;
      more := [];
    } else {
      var rest := c[|base|+1..];
      assert c == base + "/" + rest;
      SplitConcat(base, rest);
      more := Split(rest);
      assert cn[0] == c[0];
      if HasSuffix(cn, RECURSIVE) {
        SplitBase(cn);
        more := more + ["**"];
      }
      assert dn[0] == c[0];
    }
  }

  /** The segments after the first of a rooted place never climb. */
  lemma NoClimbRooted(path: seq<string>, j: nat)
    requires forall s | s in path :: Name(s)
    ensures var segs := [""] + (if path == [] then [""] else path); j < |segs| ==> segs[j] != ".."
  {
    if 0 < j <= |path| {
      assert ([""] + path)[j] == path[j-1];
      assert Name(path[j-1]);
    }
  }

  /** After a name, the segments of a relative place never climb. */
  lemma NoClimbRelative(ups: nat, path: seq<string>, m: nat, j: nat)
    requires forall s | s in path :: Name(s)
    requires m < j < ups + |path| && Name((Parents(ups) + path)[m])
    ensures (Parents(ups) + path)[j] != ".."
  {
    assert m >= ups;
    assert (Parents(ups) + path)[j] == path[j - ups];
    assert Name(path[j - ups]);
  }

  /** Below a name, a clean pattern never climbs. */
  lemma NoClimb(l: Place, front: seq<string>, more: seq<string>)
    requires Proper(l) && Split(Render(l)) == front + more
    requires l.rooted || (front != [] && Name(front[|front|-1]))
    ensures ".." !in more
  {
    RenderSegments(l);
    var segs := front + more;
    forall j | |front| <= j < |segs| ensures segs[j] != ".." {
      if l.rooted {
        NoClimbRooted(l.path, j);
      } else if l.ups > 0 || l.path != [] {
        assert segs[|front|-1] == front[|front|-1];
        NoClimbRelative(l.ups, l.path, |front| - 1, j);
      }
    }
    assert forall i | 0 <= i < |more| :: more[i] == segs[|front| + i];
  }

  /** The last segment of a base that is more than parent steps is a name. */
  lemma BaseEndsInName(declared: string)
    requires HasSuffix(Normalize(declared), RECURSIVE) && !OnlyParents(declared) && !Denotes(declared).rooted
    ensures var front := Split(TrimSuffix(Normalize(declared), RECURSIVE)); front != [] && Name(front[|front|-1])
  {
    var dn, d := Normalize(declared), Denotes(declared);
    var front := Split(TrimSuffix(dn, RECURSIVE));
    ResolveProper(Slashes(declared));
    RenderSegments(d);
    SplitBase(dn);
    CleanKeepsPlace(Slashes(declared));
    assert front == Split(dn)[..|front|] && |Split(dn)| >= 2;
    assert d.path != [] && d.path[|d.path|-1] == "**";
    assert |d.path| >= 2;
    assert front[|front|-1] == d.path[|d.path|-2];
  }

  /** Acceptance means containment, unless the declared base is nothing but parent steps. */
  lemma CoversWithin(declared: string, candidate: string)
    requires PatternCovers(declared, candidate) && !OnlyParents(declared)
    ensures Within(declared, candidate)
  {
    var dn, cn := Normalize(declared), Normalize(candidate);
    var d, c := Denotes(declared), Denotes(candidate);
    CleanKeepsPlace(Slashes(declared));
    CleanKeepsPlace(Slashes(candidate));
    ResolveProper(Slashes(declared));
    ResolveProper(Slashes(candidate));
    if dn != cn {
      RenderSegments(c);
      RenderSegments(d);
      var more := CandidateSegments(dn, cn);
      var front := Split(TrimSuffix(dn, RECURSIVE));
      SplitBase(dn);
      if !d.rooted { BaseEndsInName(declared); }
      NoClimb(c, front, more);
      var base := Walk(Start(dn), front);
      WalkConcat(Start(cn), front, more);
      WalkDown(base, more);
      assert d.path[..|d.path|-1] == base.path;
    }
  }

  /** A run of parent steps is its own cleaned form. */
  lemma ParentsAreClean(n: nat)
    requires n >= 1
    ensures var p := Join(Parents(n)); Normalize(p) == p && Denotes(p) == Place(false, n, [])
  {
    var p := Join(Parents(n));
    var place := Place(false, n, []);
    assert Parents(n) + [] == Parents(n);
    assert Render(place) == p;
    ResolveRender(place);
    JoinOnly(Parents(n), "./");
    forall i | 0 <= i < |p| ensures p[i] != '\\' {
      assert p[i] in p && '\\' !in "./";
    }
    assert Slashes(p) == p;
  }

  lemma ParentStepsText(n: nat)
    requires n >= 1
    ensures Join(Parents(n) + ["**"]) == Join(Parents(n)) + RECURSIVE
    ensures Join(Parents(n + 1)) == Join(Parents(n)) + "/" + ".."
  {
    JoinConcat(Parents(n), ["**"]);
    JoinConcat(Parents(n), [".."]);
    assert Parents(n) + [".."] == Parents(n + 1);
    assert Join(Parents(n)) + RECURSIVE == Join(Parents(n)) + "/" + "**";
  }

  lemma ParentCovered(base: string)
    ensures CleanCovers(base + RECURSIVE, base + "/" + "..")
  {
    var dn, c := base + RECURSIVE, base + "/" + "..";
    assert dn[|dn|-3..] == RECURSIVE && TrimSuffix(dn, RECURSIVE) == base;
    assert c[|c|-1] == '.';
    assert TrimSuffix(c, RECURSIVE) == c;
  }

  /** One parent step too many: accepted, yet above the declared base. */
  lemma ParentsEscape(declared: string) returns (candidate: string)
    requires OnlyParents(declared)
    ensures PatternCovers(declared, candidate) && !Within(declared, candidate)
  {
    var n := Denotes(declared).ups;
    candidate := Join(Parents(n + 1));
    ParentsAreClean(n + 1);
    ParentStepsText(n);
    ParentCovered(Join(Parents(n)));
    assert candidate[|candidate|-1] == '.' && Normalize(declared)[|Normalize(declared)|-1] == '*';
  }

  /** The test is a containment test exactly for declared patterns with more than parent steps before the wildcard. */
  lemma EnvelopeExact(declared: string)
    ensures (forall candidate :: PatternCovers(declared, candidate) ==> Within(declared, candidate)) <==>
            !OnlyParents(declared)
  {
    if OnlyParents(declared) {
      var c := ParentsEscape(declared);
    } else {
      forall c | PatternCovers(declared, c) ensures Within(declared, c) { CoversWithin(declared, c); }
    }
  }

  // ---- cleaning twice, backslashes included

  lemma {:induction false} WalkFrom(l: Place, segs: seq<string>)
    ensures forall s | s in Walk(l, segs).path :: s in l.path || s in segs
    decreases |segs|
  {
    if segs != [] { WalkFrom(Step(l, segs[0]), segs[1..]); }
  }

  /** No name on the way contains a backslash. */
  predicate Plain(l: Place) {
    forall s | s in l.path :: '\\' !in s
  }

  lemma DenotesPlain(p: string)
    ensures Plain(Denotes(p)) && Proper(Denotes(p))
  {
    ResolveProper(Slashes(p));
    SplitChars(Slashes(p));
    WalkFrom(Start(Slashes(p)), Split(Slashes(p)));
    assert '\\' !in Slashes(p);
  }

  /** The text of a plain place is its own normal form. */
  lemma RenderNormal(l: Place)
    requires Proper(l) && Plain(l)
    ensures Normalize(Render(l)) == Render(l) && Denotes(Render(l)) == l
  {
    var p := Render(l);
    JoinWithout(l.path, '\\');
    JoinWithout(Parents(l.ups) + l.path, '\\');
    assert '\\' !in p;
    assert Slashes(p) == p;
    ResolveRender(l);
  }

  lemma NormalizeIdempotent(p: string)
    ensures Normalize(Normalize(p)) == Normalize(p)
  {
    DenotesPlain(p);
    RenderNormal(Denotes(p));
  }

  /** Whether a pattern is written clean makes no difference to the test, and every pattern covers itself. */
  lemma CoversUpToCleaning(declared: string, candidate: string)
    ensures PatternCovers(declared, candidate) <==> PatternCovers(Normalize(declared), Normalize(candidate))
    ensures Normalize(declared) == Normalize(candidate) ==> PatternCovers(declared, candidate)
  {
    NormalizeIdempotent(declared);
    NormalizeIdempotent(candidate);
  }

  // ---- when the test decides containment

  /** The place is written as something followed by the recursive suffix. */
  predicate IsRecursive(l: Place) {
    l.path != [] && l.path[|l.path|-1] == "**" && (l.rooted || l.ups > 0 || |l.path| > 1)
  }

  /** The base before a final wildcard: the root directory, or a path with a name in it that is not recursive itself. */
  predicate Decidable(declared: string) {
    var d := Denotes(declared);
    d.path != [] && d.path[|d.path|-1] == "**" ==>
      if |d.path| == 1 then d.rooted else !IsRecursive(d.(path := d.path[..|d.path|-1]))
  }

  lemma RootedBelow(path: seq<string>, more: seq<string>)
    requires path != [] && more != []
    ensures "/" + Join(path + more) == "/" + Join(path) + "/" + Join(more)
  {
    JoinConcat(path, more);
    var a, b := Join(path), Join(more);
    assert "/" + (a + "/" + b) == "/" + a + "/" + b;
  }

  lemma RelativeBelow(ups: seq<string>, path: seq<string>, more: seq<string>)
    requires path != [] && more != []
    ensures Join(ups + (path + more)) == Join(ups + path) + "/" + Join(more)
  {
    JoinConcat(ups + path, more);
    assert ups + (path + more) == ups + path + more;
  }

  /** Text of a place further down. */
  lemma RenderBelow(l: Place, more: seq<string>)
    requires l.path != [] && more != []
    ensures Render(l.(path := l.path + more)) == Render(l) + "/" + Join(more)
  {
    if l.rooted {
      RootedBelow(l.path, more);
    } else {
      RelativeBelow(Parents(l.ups), l.path, more);
    }
  }

  /** A rendered place ends in the recursive suffix exactly when its last name is the wildcard below something. */
  lemma EndsRecursive(l: Place)
    requires Proper(l)
    ensures HasSuffix(Render(l), RECURSIVE) <==> IsRecursive(l)
  {
    var t := Render(l);
    RenderSegments(l);
    if HasSuffix(t, RECURSIVE) {
      SplitBase(t);
      assert Split(t)[|Split(t)|-1] == "**";
      assert |Split(t)| >= 2;
    } else if IsRecursive(l) {
      WildcardSuffix(l);
    }
  }

  lemma WildcardSuffix(l: Place)
    requires IsRecursive(l)
    ensures HasSuffix(Render(l), RECURSIVE)
  {
    var front := l.path[..|l.path|-1];
    assert l.path == front + ["**"];
    if front != [] {
      RenderBelow(l.(path := front), ["**"]);
    } else if !l.rooted {
      JoinConcat(Parents(l.ups), ["**"]);
    }
  }

  /** Everything at or below the base of a decidable pattern is accepted. */
  lemma WithinCovers(declared: string, candidate: string)
    requires Within(declared, candidate) && Decidable(declared)
    ensures PatternCovers(declared, candidate)
  {
    var d, c := Denotes(declared), Denotes(candidate);
    DenotesPlain(declared);
    DenotesPlain(candidate);
    if Normalize(declared) != Normalize(candidate) {
      var base := d.(path := d.path[..|d.path|-1]);
      var more := c.path[|base.path|..];
      assert d.path == base.path + ["**"] && c.path == base.path + more;
      if base.path == [] {
        RootCovers(c);
      } else {
        RenderBelow(base, ["**"]);
        assert d == base.(path := base.path + ["**"]) && c == base.(path := base.path + more);
        if more == [] {
          assert c == base;
          EndsRecursive(base);
          BaseCovered(Render(base));
        } else {
          RenderBelow(base, more);
          assert Name(more[0]) by { assert more[0] in c.path; }
          BelowCovered(Render(base), Join(more));
        }
      }
    }
  }

  lemma RootCovers(c: Place)
    requires c.rooted
    ensures CleanCovers("/" + "**", Render(c))
  {
    var dn, cn := "/" + "**", Render(c);
    assert dn == RECURSIVE && TrimSuffix(dn, RECURSIVE) == "";
    assert cn[0] == '/';
    if HasSuffix(cn, RECURSIVE) && |cn| == 3 { assert cn == RECURSIVE; }
    assert "" + "/" == "/";
  }

  lemma BaseCovered(base: string)
    requires !HasSuffix(base, RECURSIVE)
    ensures CleanCovers(base + "/" + "**", base)
  {
    var dn := base + "/" + "**";
    assert dn[|base|..] == RECURSIVE && dn[..|base|] == base;
  }

  lemma TrimDeclared(base: string)
    ensures var dn := base + "/" + "**"; HasSuffix(dn, RECURSIVE) && TrimSuffix(dn, RECURSIVE) == base
  {
    var dn := base + "/" + "**";
    assert dn[|base|..] == RECURSIVE && dn[..|base|] == base;
  }

  /** Trimming a text below the base does not reach into the base, unless it is the base's own wildcard. */
  lemma TrimBelow(base: string, rest: string)
    requires rest != "" && rest != "**"
    ensures HasPrefix(TrimSuffix(base + "/" + rest, RECURSIVE), base + "/")
  {
    var cn := base + "/" + rest;
    assert cn[..|base|+1] == base + "/";
    if HasSuffix(cn, RECURSIVE) {
      assert cn[|cn|-2] == '*' && cn[|cn|-1] == '*';
      assert cn[|base|] == '/' && rest == cn[|base|+1..];
      assert |rest| >= 3;
    }
  }

  lemma BelowCovered(base: string, rest: string)
    requires rest != ""
    ensures CleanCovers(base + "/" + "**", base + "/" + rest)
  {
    TrimDeclared(base);
    if rest != "**" { TrimBelow(base, rest); }
  }

  /** A bare wildcard contains every relative name and accepts only itself. */
  lemma BareWildcard(declared: string) returns (candidate: string)
    requires Denotes(declared) == Place(false, 0, ["**"])
    ensures !PatternCovers(declared, candidate) && Within(declared, candidate)
  {
    var d, place := Place(false, 0, ["**"]), Place(false, 0, ["f"]);
    candidate := Render(place);
    RenderNormal(place);
    EndsRecursive(d);
    assert Denotes(candidate) != Denotes(declared);
    if Normalize(declared) == Normalize(candidate) { SamePlace(declared, candidate); }
  }

  /** A recursive base is not accepted itself. */
  lemma NestedWildcard(declared: string, base: Place) returns (candidate: string)
    requires IsRecursive(base) && Denotes(declared) == base.(path := base.path + ["**"])
    ensures !PatternCovers(declared, candidate) && Within(declared, candidate)
  {
    DenotesPlain(declared);
    assert Plain(base) && Proper(base) by {
      assert forall s | s in base.path :: s in Denotes(declared).path;
    }
    candidate := Render(base);
    RenderNormal(base);
    RenderBelow(base, ["**"]);
    EndsRecursive(base);
    BaseUncovered(candidate);
    assert Denotes(declared).path[..|base.path|] == base.path;
  }

  /** A candidate on which the test and containment differ. */
  lemma UndecidedCandidate(declared: string) returns (candidate: string)
    requires !Decidable(declared)
    ensures PatternCovers(declared, candidate) != Within(declared, candidate)
  {
    var d := Denotes(declared);
    if OnlyParents(declared) {
      candidate := ParentsEscape(declared);
    } else if |d.path| == 1 {
      candidate := BareWildcard(declared);
    } else {
      var base := d.(path := d.path[..|d.path|-1]);
      assert d.path == base.path + ["**"];
      candidate := NestedWildcard(declared, base);
    }
  }

  lemma BaseUncovered(base: string)
    requires HasSuffix(base, RECURSIVE)
    ensures !CleanCovers(base + "/" + "**", base)
  {
    var dn := base + "/" + "**";
    assert dn[|base|..] == RECURSIVE && dn[..|base|] == base;
  }

  /** The test accepts exactly what lies at or below the declared base, if and only if the pattern is decidable. */
  lemma EnvelopeDecides(declared: string)
    ensures (forall candidate :: PatternCovers(declared, candidate) <==> Within(declared, candidate)) <==>
            Decidable(declared)
  {
    if Decidable(declared) {
      forall c ensures PatternCovers(declared, c) <==> Within(declared, c) {
        if PatternCovers(declared, c) { CoversWithin(declared, c); }
        if Within(declared, c) { WithinCovers(declared, c); }
      }
    } else {
      var c := UndecidedCandidate(declared);
    }
  }

  // ---- the whole envelope

  /** The candidate is some declared pattern or lies at or below its base. */
  ghost predicate Contained(envelope: seq<string>, candidate: string) {
    exists e :: e in envelope && Within(e, candidate)
  }

  lemma {:induction false} AboveAll(envelope: seq<string>) returns (n: nat)
    ensures forall e | e in envelope :: Denotes(e).ups < n
  {
    n := 0;
    if envelope != [] {
      n := AboveAll(envelope[1..]);
      var ups := Denotes(envelope[0]).ups;
      n := if ups < n then n else ups + 1;
      assert envelope == [envelope[0]] + envelope[1..];
    }
  }

  /** A declared run of parent steps accepts any longer run. */
  lemma ParentsCover(declared: string, n: nat)
    requires OnlyParents(declared) && Denotes(declared).ups < n
    ensures PatternCovers(declared, Join(Parents(n)))
  {
    var m := Denotes(declared).ups;
    ParentsAreClean(n);
    ParentStepsText(m);
    assert Parents(n) == Parents(m) + Parents(n - m);
    JoinConcat(Parents(m), Parents(n - m));
    assert Join(Parents(n - m)) != "" by {
      RenderSegments(Place(false, n - m, []));
      assert Parents(n - m) + [] == Parents(n - m);
    }
    BelowCovered(Join(Parents(m)), Join(Parents(n - m)));
    assert Join(Parents(m)) + RECURSIVE == Join(Parents(m)) + "/" + "**";
  }

  lemma SamePlace(a: string, b: string)
    requires Normalize(a) == Normalize(b)
    ensures Denotes(a) == Denotes(b)
  {
    CleanKeepsPlace(Slashes(a));
    CleanKeepsPlace(Slashes(b));
  }

  /** More parent steps than any declared pattern lie within none. */
  lemma NotContained(envelope: seq<string>, n: nat)
    requires n >= 1 && forall e | e in envelope :: Denotes(e).ups < n
    ensures !Contained(envelope, Join(Parents(n)))
  {
    ParentsAreClean(n);
    forall e | e in envelope ensures !Within(e, Join(Parents(n))) {
      if Normalize(e) == Normalize(Join(Parents(n))) { SamePlace(e, Join(Parents(n))); }
    }
  }

  /** An envelope contains everything it accepts if and only if no pattern of it is a run of parent steps. */
  lemma EnvelopeSound(envelope: seq<string>)
    ensures (forall w :: Covered(envelope, w) ==> Contained(envelope, w)) <==>
            forall e | e in envelope :: !OnlyParents(e)
  {
    if e :| e in envelope && OnlyParents(e) {
      var n := AboveAll(envelope);
      ParentsCover(e, n);
      NotContained(envelope, n);
      assert Covered(envelope, Join(Parents(n)));
    } else {
      forall w | Covered(envelope, w) ensures Contained(envelope, w) {
        var e :| e in envelope && PatternCovers(e, w);
        CoversWithin(e, w);
      }
    }
  }

  /** The first segment of a pattern that does not climb. */
  lemma LevelStart(c: Place)
    requires Proper(c) && c.ups == 0
    ensures Split(Render(c))[0] != ".."
  {
    RenderSegments(c);
    if !c.rooted && c.path != [] {
      assert (Parents(0) + c.path)[0] == c.path[0];
      assert Name(c.path[0]);
    }
  }

  /** The base of a run of parent steps starts with one. */
  lemma ParentsStart(declared: string)
    requires OnlyParents(declared) && HasSuffix(Normalize(declared), RECURSIVE)
    ensures Split(TrimSuffix(Normalize(declared), RECURSIVE))[0] == ".."
  {
    var dn, d := Normalize(declared), Denotes(declared);
    DenotesPlain(declared);
    RenderSegments(d);
    SplitBase(dn);
    assert (Parents(d.ups) + d.path)[0] == "..";
    assert Split(dn)[0] == Split(TrimSuffix(dn, RECURSIVE))[0];
  }

  /** For candidates that do not climb, acceptance means containment whatever is declared. */
  lemma LevelWithin(declared: string, candidate: string)
    ensures PatternCovers(declared, candidate) && Denotes(candidate).ups == 0 ==> Within(declared, candidate)
  {
    var dn, cn := Normalize(declared), Normalize(candidate);
    if PatternCovers(declared, candidate) && Denotes(candidate).ups == 0 && dn != cn {
      DenotesPlain(candidate);
      RenderSegments(Denotes(candidate));
      LevelStart(Denotes(candidate));
      var more := CandidateSegments(dn, cn);
      assert Split(cn)[0] == Split(TrimSuffix(dn, RECURSIVE))[0];
      if OnlyParents(declared) { ParentsStart(declared); } else { CoversWithin(declared, candidate); }
    }
  }

  // ---- the rules of path cleaning, as rewriting steps and normal forms

  /** One segment between two parts of a pattern. */
  lemma SegmentBetween(x: string, seg: string, y: string)
    requires '/' !in seg
    ensures Resolve(x + "/" + seg + "/" + y) == Walk(Step(Walk(Start(x + "/" + y), Split(x)), seg), Split(y))
    ensures Resolve(x + "/" + y) == Walk(Walk(Start(x + "/" + y), Split(x)), Split(y))
  {
    var start, p := Start(x + "/" + y), x + "/" + seg + "/" + y;
    assert p == x + "/" + (seg + "/" + y);
    SplitConcat(x, seg + "/" + y);
    SplitConcat(seg, y);
    SplitPlain(seg);
    WalkConcat(start, Split(x), [seg] + Split(y));
    WalkConcat(Walk(start, Split(x)), [seg], Split(y));
    SplitConcat(x, y);
    WalkConcat(start, Split(x), Split(y));
    assert Start(p) == start by { assert p[0] == if x == "" then '/' else x[0]; }
    assert Walk(Walk(start, Split(x)), [seg]) == Step(Walk(start, Split(x)), seg);
  }

  /**
   Repeated slashes and `.` segments disappear, a name and the `..` after it cancel, and `..` right
   below the root disappears.
   */
  lemma CleanRules(x: string, name: string, y: string)
    requires Name(name)
    ensures Clean(x + "/" + "" + "/" + y) == Clean(x + "/" + y)
    ensures Clean(x + "/" + "." + "/" + y) == Clean(x + "/" + y)
    ensures Clean(x + "/" + (name + "/" + "..") + "/" + y) == Clean(x + "/" + y)
    ensures Clean("" + "/" + ".." + "/" + y) == Clean("" + "/" + y)
  {
    SegmentBetween(x, "", y);
    SegmentBetween(x, ".", y);
    SegmentBetween("", "..", y);
    NameCancelled(x, name, y);
    assert Walk(Start("" + "/" + y), Split("")) == Place(true, 0, []) by { SplitPlain(""); }
  }

  lemma NameCancelled(x: string, name: string, y: string)
    requires Name(name)
    ensures Resolve(x + "/" + (name + "/" + "..") + "/" + y) == Resolve(x + "/" + y)
  {
    var more := ".." + "/" + y;
    var start, p := Start(x + "/" + y), x + "/" + name + "/" + more;
    assert p == x + "/" + (name + "/" + "..") + "/" + y;
    SegmentBetween(x, name, more);
    SegmentBetween(x, name, y);
    SplitConcat("..", y);
    SplitPlain("..");
    var l := Walk(Start(x + "/" + more), Split(x));
    assert Start(x + "/" + more) == start by { assert (x + "/" + more)[0] == (x + "/" + y)[0]; }
    WalkConcat(Step(l, name), [".."], Split(y));
    assert Walk(Step(l, name), [".."]) == Step(Step(l, name), "..") == l by {
      assert (l.path + [name])[..|l.path|] == l.path;
    }
  }

  /** A slash at the end of a non-empty pattern disappears; so do the steps `.` and name, `..` at the start. */
  lemma CleanEnds(x: string, name: string, y: string)
    requires x != "" && Name(name) && (y == "" || y[0] != '/')
    ensures Clean(x + "/") == Clean(x)
    ensures Clean("." + "/" + y) == Clean(y)
    ensures Clean((name + "/" + "..") + "/" + y) == Clean(y)
  {
    assert x + "/" + "" == x + "/";
    SplitConcat(x, "");
    SplitPlain("");
    WalkConcat(Start(x), Split(x), [""]);
    assert Walk(Walk(Start(x), Split(x)), [""]) == Walk(Start(x), Split(x));
    assert (x + "/")[0] == x[0];
    SplitConcat(".", y);
    SplitPlain(".");
    WalkConcat(Start(y), ["."], Split(y));
    assert Walk(Start(y), ["."]) == Start(y) && ("." + "/" + y)[0] == '.';
    NameStart(name, y);
  }

  lemma CancelSegments(name: string, y: string)
    requires Name(name)
    ensures Split((name + "/" + "..") + "/" + y) == [name, ".."] + Split(y)
  {
    SplitConcat(name + "/" + "..", y);
    SplitConcat(name, "..");
    SplitPlain(name);
    SplitPlain("..");
    assert [name] + [".."] == [name, ".."];
  }

  lemma NameStart(name: string, y: string)
    requires Name(name) && (y == "" || y[0] != '/')
    ensures Resolve((name + "/" + "..") + "/" + y) == Resolve(y)
  {
    var p, l := (name + "/" + "..") + "/" + y, Start(y);
    CancelSegments(name, y);
    assert Start(p) == l by { assert p[0] == name[0] && name[0] in name; }
    WalkConcat(l, [name, ".."], Split(y));
    assert Walk(l, [name, ".."]) == Walk(Step(l, name), [".."]) == Step(Step(l, name), "..") == l;
  }

  /** The normal forms: names below the root, and parent steps followed by names; each is its own cleaned form. */
  lemma CleanForms(n: nat, names: seq<string>)
    requires forall s | s in names :: Name(s)
    ensures Clean("/" + Join(names)) == "/" + Join(names)
    ensures n > 0 || names != [] ==> Clean(Join(Parents(n) + names)) == Join(Parents(n) + names)
    ensures Clean("") == "." && Clean(".") == "."
  {
    ResolveRender(Place(true, 0, names));
    ResolveRender(Place(false, n, names));
    SplitPlain("");
    SplitPlain(".");
    assert Resolve("") == Place(false, 0, []) && Resolve(".") == Place(false, 0, []);
  }

  lemma RecursiveEnd(base: string)
    ensures HasSuffix(base + "/**", RECURSIVE)
  {
    assert (base + "/**")[|base|..] == "/**";
  }

  lemma CoversBase(base: string, c: string)
    ensures CleanCovers(base + "/**", c) <==>
            c == base + "/**" || base + "/" <= c || (c == base && !HasSuffix(c, "/**"))
  {
    TrimDeclared(base);
    var d := base + "/" + "**";
    assert d == base + "/**";
    if base + "/" <= c {
      var rest := c[|base|+1..];
      assert c == base + "/" + rest;
      if rest != "" { BelowCovered(base, rest); } else { assert c[|c|-1] == '/'; }
    }
    if HasSuffix(c, RECURSIVE) { assert c == TrimSuffix(c, RECURSIVE) + RECURSIVE; }
  }

  /** `c` lies below the directory that `d` names before its wildcard, or is that directory. */
  predicate Below(base: string, d: string, c: string) {
    d == base + "/**" && (base + "/" <= c || (c == base && !HasSuffix(c, "/**")))
  }

  lemma OneBase(d: string, base: string, c: string)
    requires Below(base, d, c)
    ensures CleanCovers(d, c)
  {
    CoversBase(base, c);
  }

  /** The test, read off the two cleaned texts. */
  lemma CoversText(declared: string, candidate: string)
    ensures var d, c := Normalize(declared), Normalize(candidate);
            PatternCovers(declared, candidate) <==> d == c || exists base :: Below(base, d, c)
  {
    var d, c := Normalize(declared), Normalize(candidate);
    if base :| Below(base, d, c) { OneBase(d, base, c); }
    if CleanCovers(d, c) && d != c {
      var base := TrimSuffix(d, RECURSIVE);
      assert d == base + "/**";
      CoversBase(base, c);
      assert Below(base, d, c);
    }
  }
}
