/** What the digest of a frozen environment determines (internal/controllerenv/controllerenv.go, Hash and Validate). */
module EnvDigest {
  import opened Results
  import opened Order
  import opened FrozenEnv

  /** The hash stands for its input. */
  ghost predicate IsInjective(sha: string -> string) {
    forall x, y {:trigger sha(x), sha(y)} :: sha(x) == sha(y) ==> x == y
  }

  /** All values are written with allowed characters. */
  predicate Over(allowed: char -> bool, m: map<string, string>) {
    forall k, i | k in m && 0 <= i < |m[k]| :: allowed(m[k][i])
  }

  /** A derived environment whose values use allowed characters, and its list. */
  ghost predicate IsEnvironment(allowed: char -> bool, f: Frozen, extra: map<string, string>, values: seq<string>) {
    Encodes(values, Derived(f, extra)) && Over(allowed, Derived(f, extra))
  }

  /** Derived environments with equal digests have equal lists. */
  ghost predicate DigestDetermines(allowed: char -> bool) {
    forall sha, f, extra, f', extra', a, b
      {:trigger IsInjective(sha), IsEnvironment(allowed, f, extra, a), IsEnvironment(allowed, f', extra', b)}
      | IsInjective(sha) && IsEnvironment(allowed, f, extra, a) && IsEnvironment(allowed, f', extra', b) &&
        Digest(sha, a) == Digest(sha, b) :: a == b
  }

  // ---- without line breaks in values, the joined text has one reading

  /** A `key=value` line; the key may hold line breaks, the value may not. */
  ghost predicate IsLine(e: string) {
    exists k, v :: e == Pair(k, v) && '=' !in k && '\n' !in v
  }

  lemma JoinedHead(a: seq<string>)
    requires a != []
    ensures |a| == 1 ==> JoinLines(a) == a[0]
    ensures |a| > 1 ==> JoinLines(a) == a[0] + ("\n" + JoinLines(a[1..]))
  {
    if |a| > 1 {
      assert a[0] + "\n" + JoinLines(a[1..]) == a[0] + ("\n" + JoinLines(a[1..]));
    }
  }

  /** A line that goes on after another line has a line break in its value. */
  lemma BreakInValue(e: string, k: string, v: string)
    requires IsLine(e) && '=' !in k && e <= Pair(k, v) && |e| < |Pair(k, v)| && Pair(k, v)[|e|] == '\n'
    ensures '\n' in v
  {
    var f := Pair(k, v);
    var ke, ve :| e == Pair(ke, ve) && '=' !in ke && '\n' !in ve;
    assert f[|ke|] == e[|ke|] == '=';
    assert forall i | 0 <= i < |k| :: k[i] == f[i];
    assert |k| <= |ke|;
    assert v[|e| - |k| - 1] == f[|e|];
  }

  lemma HeadNotShorter(a: seq<string>, b: seq<string>)
    requires a != [] && b != [] && IsLine(a[0]) && IsLine(b[0]) && JoinLines(a) == JoinLines(b)
    ensures |b[0]| <= |a[0]|
  {
    JoinedHead(a);
    JoinedHead(b);
    var e, f := a[0], b[0];
    if |e| < |f| {
      assert f == JoinLines(b)[..|f|] && e == JoinLines(a)[..|e|];
      assert f[|e|] == JoinLines(a)[|e|] == '\n';
      var k, v :| f == Pair(k, v) && '=' !in k && '\n' !in v;
      BreakInValue(e, k, v);
    }
  }

  lemma {:induction false} LinesUnique(a: seq<string>, b: seq<string>)
    requires (forall e | e in a :: IsLine(e)) && (forall e | e in b :: IsLine(e)) && JoinLines(a) == JoinLines(b)
    ensures a == b
    decreases |a|
  {
    if a == [] || b == [] {
      LineNonEmpty(a);
      LineNonEmpty(b);
    } else {
      HeadNotShorter(a, b);
      HeadNotShorter(b, a);
      JoinedHead(a);
      JoinedHead(b);
      var n := |a[0]|;
      assert a[0] == JoinLines(a)[..n] == JoinLines(b)[..n] == b[0];
      if |a| > 1 && |b| > 1 {
        assert JoinLines(a[1..]) == JoinLines(a)[n+1..] == JoinLines(b)[n+1..] == JoinLines(b[1..]);
        LinesUnique(a[1..], b[1..]);
        assert a == [a[0]] + a[1..] && b == [b[0]] + b[1..];
      }
    }
  }

  lemma LineNonEmpty(a: seq<string>)
    requires forall e | e in a :: IsLine(e)
    ensures a != [] ==> JoinLines(a) != ""
  {
    if a != [] {
      JoinedHead(a);
      assert IsLine(a[0]);
    }
  }

  lemma EncodedLines(values: seq<string>, m: map<string, string>, e: string)
    requires Encodes(values, m) && WellKeyed(m) && (forall k | k in m :: '\n' !in m[k]) && e in values
    ensures IsLine(e)
  {
    var keys :| EncodesBy(values, m, keys);
    var i :| 0 <= i < |values| && values[i] == e;
    assert e == Pair(keys[i], m[keys[i]]) && '=' !in keys[i];
  }

  lemma EntriesDecide(a: seq<string>, m: map<string, string>, b: seq<string>, m': map<string, string>)
    requires Encodes(a, m) && Encodes(b, m') && WellKeyed(m) && WellKeyed(m') && forall e | e in a :: e in b
    ensures forall k | k in m :: k in m' && m'[k] == m[k]
  {
    forall k | k in m ensures k in m' && m'[k] == m[k] { EntryDecides(a, m, b, m', k); }
  }

  /** Lists with the same entries come from the same map. */
  lemma SameEntriesSameMap(a: seq<string>, m: map<string, string>, b: seq<string>, m': map<string, string>)
    requires Encodes(a, m) && Encodes(b, m') && WellKeyed(m) && WellKeyed(m')
    requires (forall e | e in a :: e in b) && (forall e | e in b :: e in a)
    ensures m == m'
  {
    EntriesDecide(a, m, b, m');
    EntriesDecide(b, m', a, m);
  }

  lemma EntryDecides(a: seq<string>, m: map<string, string>, b: seq<string>, m': map<string, string>, k: string)
    requires Encodes(a, m) && Encodes(b, m') && WellKeyed(m) && WellKeyed(m') && (forall e | e in a :: e in b) && k in m
    ensures k in m' && m'[k] == m[k]
  {
    var keys :| EncodesBy(a, m, keys);
    assert k in Elements(keys);
    var i :| 0 <= i < |keys| && keys[i] == k;
    assert a[i] in b;
    var keys' :| EncodesBy(b, m', keys');
    var j :| 0 <= j < |b| && b[j] == a[i];
    CutPair(k, m[k]);
    CutPair(keys'[j], m'[keys'[j]]);
  }

  lemma NoBreaks(allowed: char -> bool, m: map<string, string>)
    requires Over(allowed, m) && !allowed('\n')
    ensures forall k | k in m :: '\n' !in m[k]
  {
  }

  lemma WithoutBreaks(allowed: char -> bool, sha: string -> string, m: map<string, string>, a: seq<string>,
                      m': map<string, string>, b: seq<string>)
    requires IsInjective(sha) && !allowed('\n') && Over(allowed, m) && Over(allowed, m')
    requires Encodes(a, m) && Encodes(b, m') && WellKeyed(m) && WellKeyed(m') && Digest(sha, a) == Digest(sha, b)
    ensures a == b
  {
    NoBreaks(allowed, m);
    NoBreaks(allowed, m');
    SortElements(a);
    SortElements(b);
    forall e | e in Sort(a) ensures IsLine(e) { EncodedLines(a, m, e); }
    forall e | e in Sort(b) ensures IsLine(e) { EncodedLines(b, m', e); }
    LinesUnique(Sort(a), Sort(b));
    forall e | e in a ensures e in b { assert e in Sort(a); }
    forall e | e in b ensures e in a { assert e in Sort(b); }
    SameEntriesSameMap(a, m, b, m');
    EncodesUnique(a, b, m);
  }

  // ---- with them, it has two

  lemma SortedAlready(s: seq<string>)
    requires StrictlySorted(s)
    ensures Sort(s) == s
  {
    StrictlySortedDistinct(s);
    SortDistinct(s);
    SortElements(s);
    StrictlySortedUnique(Sort(s), s);
  }

  /** Any map with admissible keys is the environment derived from nothing. */
  lemma DerivedFromNothing(m: map<string, string>)
    requires WellKeyed(m)
    ensures Derived(Frozen(None, ""), m) == m
  {
  }

  lemma TwoText(values: seq<string>)
    requires |values| == 2 && Less(values[0], values[1])
    ensures JoinLines(Sort(values)) == values[0] + "\n" + values[1]
  {
    assert StrictlySorted(values);
    SortedAlready(values);
    assert values[1..] == [values[1]];
  }

  lemma OneText(values: seq<string>)
    requires |values| == 1
    ensures JoinLines(Sort(values)) == values[0]
  {
    SortedAlready(values);
  }

  /** The list of two variables in key order. */
  lemma TwoEncoded(k: string, v: string, l: string, w: string, values: seq<string>, m: map<string, string>)
    requires Less(k, l) && k != l && values == [Pair(k, v), Pair(l, w)] && m == map[k := v, l := w]
    ensures Encodes(values, m)
  {
    assert Elements([k, l]) == m.Keys;
    assert EncodesBy(values, m, [k, l]);
  }

  lemma OneEncoded(k: string, v: string, values: seq<string>, m: map<string, string>)
    requires values == [Pair(k, v)] && m == map[k := v]
    ensures Encodes(values, m)
  {
    assert Elements([k]) == m.Keys;
    assert EncodesBy(values, m, [k]);
  }

  lemma SmallEnvironment(allowed: char -> bool, k: string, v: string, l: string, w: string, values: seq<string>,
                         m: map<string, string>)
    requires Admissible(k) && Admissible(l) && k[0] < l[0]
    requires (forall c | c in v :: allowed(c)) && (forall c | c in w :: allowed(c))
    requires values == [Pair(k, v), Pair(l, w)] && m == map[k := v, l := w]
    ensures IsEnvironment(allowed, Frozen(None, ""), m, values)
  {
    KeyLess(k, l);
    TwoEncoded(k, v, l, w, values, m);
    SmallOver(allowed, k, v, l, w, m);
    DerivedFromNothing(m);
  }

  lemma SmallOver(allowed: char -> bool, k: string, v: string, l: string, w: string, m: map<string, string>)
    requires Admissible(k) && Admissible(l) && m == map[k := v, l := w]
    requires (forall c | c in v :: allowed(c)) && (forall c | c in w :: allowed(c))
    ensures WellKeyed(m) && Over(allowed, m)
  {
    forall x, i | x in m && 0 <= i < |m[x]| ensures allowed(m[x][i]) { assert m[x] == v || m[x] == w; }
  }

  lemma Identity()
    ensures IsInjective((x: string) => x)
  {
  }

  /** Two environments with one text. */
  lemma Confused(allowed: char -> bool, f: Frozen, m: map<string, string>, a: seq<string>, m': map<string, string>,
                 b: seq<string>)
    requires IsEnvironment(allowed, f, m, a) && IsEnvironment(allowed, f, m', b) && a != b
    requires JoinLines(Sort(a)) == JoinLines(Sort(b))
    ensures !DigestDetermines(allowed)
  {
    Identity();
    var sha := (x: string) => x;
    assert IsInjective(sha) && Digest(sha, a) == Digest(sha, b);
  }

  /** A break at the end of a value, or at the start of the next key. */
  lemma BreakMoves(allowed: char -> bool, a: seq<string>, b: seq<string>)
    requires allowed('\n')
    requires a == [Pair("\t", "\n"), Pair("B", "")] && b == [Pair("\t", ""), Pair("\nB", "")]
    ensures !DigestDetermines(allowed)
  {
    var m, m': map<string, string> := map["\t" := "\n", "B" := ""], map["\t" := "", "\nB" := ""];
    SmallEnvironment(allowed, "\t", "\n", "B", "", a, m);
    SmallEnvironment(allowed, "\t", "", "\nB", "", b, m');
    assert JoinLines(Sort(a)) == JoinLines(Sort(b)) by { BreakText(a, b); }
    assert |a[0]| == 3 && |b[0]| == 2;
    Confused(allowed, Frozen(None, ""), m, a, m', b);
  }

  lemma BreakText(a: seq<string>, b: seq<string>)
    requires a == [Pair("\t", "\n"), Pair("B", "")] && b == [Pair("\t", ""), Pair("\nB", "")]
    ensures JoinLines(Sort(a)) == JoinLines(Sort(b))
  {
    FirstLess("\t", "\n", "B", "");
    FirstLess("\t", "", "\nB", "");
    TwoText(a);
    TwoText(b);
    assert a[0] + "\n" + a[1] == b[0] + "\n" + b[1];
  }

  lemma KeyLess(k: string, l: string)
    requires k != "" && l != "" && k[0] < l[0]
    ensures Less(k, l) && k != l
  {
  }

  lemma FirstLess(k: string, v: string, l: string, w: string)
    requires k != "" && l != "" && k[0] < l[0]
    ensures Less(Pair(k, v), Pair(l, w))
  {
    assert Pair(k, v)[0] == k[0] && Pair(l, w)[0] == l[0];
    KeyLess(Pair(k, v), Pair(l, w));
  }

  /** Equal digests mean equal environments if and only if no value can hold a line break. */
  lemma DigestExact(allowed: char -> bool)
    ensures DigestDetermines(allowed) <==> !allowed('\n')
  {
    if allowed('\n') {
      BreakMoves(allowed, [Pair("\t", "\n"), Pair("B", "")], [Pair("\t", ""), Pair("\nB", "")]);
    } else {
      forall sha, f, extra, f', extra', a, b
        | IsInjective(sha) && IsEnvironment(allowed, f, extra, a) && IsEnvironment(allowed, f', extra', b) &&
          Digest(sha, a) == Digest(sha, b)
        ensures a == b
      {
        DerivedKeys(f, extra);
        DerivedKeys(f', extra');
        WithoutBreaks(allowed, sha, Derived(f, extra), a, Derived(f', extra'), b);
      }
    }
  }

  lemma SortTwo(values: seq<string>, p: string, q: string)
    requires Less(p, q) && (values == [p, q] || values == [q, p])
    ensures Sort(values) == [p, q]
  {
    LessAsymmetric(p, q);
    var sorted := [p, q];
    assert Distinct(values) && StrictlySorted(sorted);
    SortDistinct(values);
    SortElements(values);
    StrictlySortedUnique(Sort(values), sorted);
  }

  lemma OneDigest(sha: string -> string, one: seq<string>, two: seq<string>, p: string, q: string)
    requires Less(p, q) && one == [p + "\n" + q] && (two == [p, q] || two == [q, p])
    ensures Digest(sha, one) == Digest(sha, two)
  {
    OneText(one);
    SortTwo(two, p, q);
    var lines := [p, q];
    assert lines[1..] == [q] && JoinLines([q]) == q;
    assert JoinLines(lines) == p + "\n" + q;
  }

  lemma PairOfPair(k: string, v: string, rest: string)
    ensures Pair(k, v + "\n" + rest) == Pair(k, v) + "\n" + rest
  {
  }

  /**
   For any two variables, named so that the line of the first sorts first: one variable with a line
   break validates under the hash of both.
   */
  lemma BreakValidates(sha: string -> string, k: string, v: string, l: string, w: string,
                       one: seq<string>, two: seq<string>)
    requires (forall s :: sha(s) != "") && k != l && Less(Pair(k, v), Pair(l, w))
    requires one == [Pair(k, v + "\n" + Pair(l, w))]
    requires two == if Less(k, l) then [Pair(k, v), Pair(l, w)] else [Pair(l, w), Pair(k, v)]
    ensures Encodes(one, map[k := v + "\n" + Pair(l, w)]) && Encodes(two, map[k := v, l := w])
    ensures Validates(sha, Frozen(Some(one), Digest(sha, two)))
  {
    OneEncoded(k, v + "\n" + Pair(l, w), one, map[k := v + "\n" + Pair(l, w)]);
    LessTotal(k, l);
    if Less(k, l) {
      TwoEncoded(k, v, l, w, two, map[k := v, l := w]);
    } else {
      TwoEncoded(l, w, k, v, two, map[k := v, l := w]);
    }
    PairOfPair(k, v, Pair(l, w));
    OneDigest(sha, one, two, Pair(k, v), Pair(l, w));
  }

  /** The lines of two variables always sort one way or the other. */
  lemma LinesComparable(k: string, v: string, l: string, w: string)
    requires '=' !in k && '=' !in l && k != l
    ensures Less(Pair(k, v), Pair(l, w)) || Less(Pair(l, w), Pair(k, v))
  {
    LessTotal(Pair(k, v), Pair(l, w));
    CutPair(k, v);
    CutPair(l, w);
  }

  // ---- what is hashed

  /** Each further line is set off by one line break. */
  lemma {:induction false} LinesText(lines: seq<string>, last: string)
    ensures JoinLines([last]) == last
    ensures lines != [] ==> JoinLines(lines + [last]) == JoinLines(lines) + "\n" + last
  {
    if lines != [] {
      assert (lines + [last])[1..] == lines[1..] + [last] && (lines + [last])[0] == lines[0];
      LinesText(lines[1..], last);
      if |lines| > 1 {
        var tail := JoinLines(lines[1..]);
        assert lines[0] + "\n" + (tail + "\n" + last) == lines[0] + "\n" + tail + "\n" + last;
      } else {
        assert lines[1..] + [last] == [last];
      }
    }
  }

  /** The digest is that of the entries in ascending order, however they are listed. */
  lemma DigestSorted(sha: string -> string, values: seq<string>, ascending: seq<string>)
    requires multiset(values) == multiset(ascending)
    requires forall i, j | 0 <= i < j < |ascending| :: !Less(ascending[j], ascending[i])
    ensures Digest(sha, values) == sha(JoinLines(ascending))
  {
    SortSorts(values);
    SortedUnique(Sort(values), ascending);
  }

  /** At a concrete list. */
  lemma DigestExample(sha: string -> string)
    ensures Digest(sha, ["B=2", "A=1"]) == sha("A=1\nB=2")
  {
    var values, ascending := ["B=2", "A=1"], ["A=1", "B=2"];
    assert multiset(values) == multiset(ascending);
    assert !Less("B=2", "A=1");
    DigestSorted(sha, values, ascending);
    LinesText(["A=1"], "B=2");
    assert ["A=1"] + ["B=2"] == ascending && JoinLines(["A=1"]) == "A=1";
    assert "A=1" + "\n" + "B=2" == "A=1\nB=2";
  }
}
