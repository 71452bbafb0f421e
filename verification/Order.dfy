/** Go's byte-wise string order, and what `sort.Strings` leaves behind. */
module Order {

  predicate Less(a: string, b: string) {
    if |b| == 0 then false
    else if |a| == 0 then true
    else a[0] < b[0] || (a[0] == b[0] && Less(a[1..], b[1..]))
  }

  lemma {:induction false} LessTotal(a: string, b: string)
    ensures Less(a, b) || a == b || Less(b, a)
  {
    if a != [] && b != [] && a[0] == b[0] {
      LessTotal(a[1..], b[1..]);
      assert a == [a[0]] + a[1..] && b == [b[0]] + b[1..];
    }
  }

  lemma {:induction false} LessAsymmetric(a: string, b: string)
    requires Less(a, b)
    ensures !Less(b, a) && a != b
  {
    if a != [] && a[0] == b[0] {
      LessAsymmetric(a[1..], b[1..]);
    }
  }

  lemma {:induction false} LessTransitive(a: string, b: string, c: string)
    requires Less(a, b) && Less(b, c)
    ensures Less(a, c)
  {
    if a != [] && a[0] == b[0] == c[0] {
      LessTransitive(a[1..], b[1..], c[1..]);
    }
  }

  /** Byte-wise order in plain words: a proper prefix, or a smaller character after a common prefix. */
  lemma {:induction false} LessMeans(a: string, b: string)
    ensures Less(a, b) <==> (a != b && a <= b) || FirstDifference(a, b)
  {
    if a != [] && b != [] && a[0] == b[0] {
      var s, t := a[1..], b[1..];
      assert a == [a[0]] + s && b == [b[0]] + t;
      LessMeans(s, t);
      assert a <= b <==> s <= t;
      DifferenceBehind(a, b);
    } else if a != [] && b != [] {
      DifferenceAtStart(a, b);
    }
  }

  predicate FirstDifference(a: string, b: string) {
    exists i :: 0 <= i < |a| && i < |b| && a[..i] == b[..i] && a[i] < b[i]
  }

  lemma DifferenceAtStart(a: string, b: string)
    requires a != [] && b != [] && a[0] != b[0]
    ensures FirstDifference(a, b) <==> a[0] < b[0]
  {
    forall i | 0 <= i < |a| && i < |b| ensures a[..i] == b[..i] ==> i == 0 {
      assert i > 0 ==> a[..i][0] == a[0] && b[..i][0] == b[0];
    }
    assert a[..0] == b[..0];
  }

  lemma DifferenceBehind(a: string, b: string)
    requires a != [] && b != [] && a[0] == b[0]
    ensures FirstDifference(a, b) <==> FirstDifference(a[1..], b[1..])
  {
    var s, t := a[1..], b[1..];
    if FirstDifference(a, b) {
      var i :| 0 <= i < |a| && i < |b| && a[..i] == b[..i] && a[i] < b[i];
      assert s[..i-1] == a[..i][1..] && t[..i-1] == b[..i][1..] && s[i-1] < t[i-1];
    }
    if FirstDifference(s, t) {
      var i :| 0 <= i < |s| && i < |t| && s[..i] == t[..i] && s[i] < t[i];
      assert a[..i+1] == [a[0]] + s[..i] && b[..i+1] == [b[0]] + t[..i] && a[i+1] < b[i+1];
    }
  }

  /** Ascending, repetitions allowed. */
  predicate Sorted(s: seq<string>) {
    forall i, j | 0 <= i < j < |s| :: !Less(s[j], s[i])
  }

  predicate StrictlySorted(s: seq<string>) {
    forall i, j | 0 <= i < j < |s| :: Less(s[i], s[j])
  }

  predicate Distinct<T(==)>(s: seq<T>) {
    forall i, j | 0 <= i < j < |s| :: s[i] != s[j]
  }

  function Elements<T(==)>(s: seq<T>): set<T> {
    set x | x in s
  }

  /** Ascending by key, repetitions allowed. */
  predicate SortedBy<T>(key: T -> string, s: seq<T>) {
    forall i, j | 0 <= i < j < |s| :: !Less(key(s[j]), key(s[i]))
  }

  function InsertBy<T>(key: T -> string, x: T, s: seq<T>): seq<T> {
    if s == [] || !Less(key(s[0]), key(x)) then [x] + s else [s[0]] + InsertBy(key, x, s[1..])
  }

  /** `sort.Slice` with a comparison of keys; SortBySorts states what it does. */
  function SortBy<T>(key: T -> string, s: seq<T>): seq<T> {
    if s == [] then [] else InsertBy(key, s[0], SortBy(key, s[1..]))
  }

  lemma {:induction false} InsertBySorts<T>(key: T -> string, x: T, s: seq<T>)
    requires SortedBy(key, s)
    ensures SortedBy(key, InsertBy(key, x, s)) && multiset(InsertBy(key, x, s)) == multiset(s) + multiset{x}
  {
    if s != [] && Less(key(s[0]), key(x)) {
      InsertBySorts(key, x, s[1..]);
      assert s == [s[0]] + s[1..];
      InsertBelow(key, x, s, InsertBy(key, x, s[1..]));
    } else if s != [] {
      InsertAbove(key, x, s);
    }
  }

  lemma InsertBelow<T>(key: T -> string, x: T, s: seq<T>, rest: seq<T>)
    requires s != [] && SortedBy(key, s) && Less(key(s[0]), key(x)) && SortedBy(key, rest)
    requires multiset(rest) == multiset(s[1..]) + multiset{x}
    ensures SortedBy(key, [s[0]] + rest)
  {
    LessAsymmetric(key(s[0]), key(x));
    forall y | y in rest ensures !Less(key(y), key(s[0])) {
      assert y in multiset(rest);
      assert y == x || y in s[1..];
    }
  }

  lemma InsertAbove<T>(key: T -> string, x: T, s: seq<T>)
    requires s != [] && SortedBy(key, s) && !Less(key(s[0]), key(x))
    ensures SortedBy(key, [x] + s)
  {
    LessTotal(key(s[0]), key(x));
    forall i | 0 <= i < |s| ensures !Less(key(s[i]), key(x)) {
      if Less(key(s[i]), key(x)) && Less(key(x), key(s[0])) { LessTransitive(key(s[i]), key(x), key(s[0])); }
    }
  }

  /** An ascending rearrangement of the argument. */
  lemma {:induction false} SortBySorts<T>(key: T -> string, s: seq<T>)
    ensures SortedBy(key, SortBy(key, s)) && multiset(SortBy(key, s)) == multiset(s)
  {
    if s != [] {
      SortBySorts(key, s[1..]);
      InsertBySorts(key, s[0], SortBy(key, s[1..]));
      assert s == [s[0]] + s[1..];
    }
  }

  lemma SameMultiset<T>(s: seq<T>, r: seq<T>)
    requires multiset(s) == multiset(r)
    ensures (forall x :: x in s <==> x in r) && |s| == |r|
  {
    forall x ensures x in s <==> x in r {
      assert x in s <==> x in multiset(s);
      assert x in r <==> x in multiset(r);
    }
    assert |s| == |multiset(s)| && |r| == |multiset(r)|;
  }

  function Itself(s: string): string { s }

  /** `sort.Strings`. */
  function Sort(s: seq<string>): seq<string> {
    SortBy(Itself, s)
  }

  lemma SortSorts(s: seq<string>)
    ensures Sorted(Sort(s)) && multiset(Sort(s)) == multiset(s)
  {
    SortBySorts(Itself, s);
    var r := Sort(s);
    forall i, j | 0 <= i < j < |r| ensures !Less(r[j], r[i]) {
      assert !Less(Itself(r[j]), Itself(r[i]));
    }
  }

  /** An ascending list is determined by its elements with their repetitions. */
  lemma {:induction false} SortedUnique(s: seq<string>, t: seq<string>)
    requires Sorted(s) && Sorted(t) && multiset(s) == multiset(t)
    ensures s == t
  {
    SameMultiset(s, t);
    if s != [] {
      SortedHeads(s, t);
      TailMultiset(s);
      TailMultiset(t);
      SortedUnique(s[1..], t[1..]);
      assert s == [s[0]] + s[1..] && t == [t[0]] + t[1..];
    }
  }

  lemma TailMultiset<T>(s: seq<T>)
    requires s != []
    ensures multiset(s[1..]) == multiset(s) - multiset{s[0]}
  {
    assert s == [s[0]] + s[1..];
  }

  lemma SortedHeads(s: seq<string>, t: seq<string>)
    requires Sorted(s) && Sorted(t) && s != [] && t != [] && forall x :: x in s <==> x in t
    ensures s[0] == t[0]
  {
    assert t[0] in s && s[0] in t by { assert t[0] in t && s[0] in s; }
    var i :| 0 <= i < |s| && s[i] == t[0];
    var j :| 0 <= j < |t| && t[j] == s[0];
    LessTotal(s[0], t[0]);
    if i == 0 || j == 0 { assert s[0] == t[0]; }
  }

  lemma SortElements(s: seq<string>)
    ensures |Sort(s)| == |s| && forall x :: x in Sort(s) <==> x in s
  {
    SortSorts(s);
    SameMultiset(Sort(s), s);
  }

  lemma {:induction false} DistinctCounts<T>(s: seq<T>, x: T)
    requires Distinct(s)
    ensures multiset(s)[x] == if x in s then 1 else 0
  {
    if s != [] {
      assert s == [s[0]] + s[1..];
      DistinctCounts(s[1..], x);
    }
  }

  lemma {:induction false} CountsDistinct<T>(s: seq<T>)
    requires forall x | x in s :: multiset(s)[x] == 1
    ensures Distinct(s)
  {
    forall i, j | 0 <= i < j < |s| ensures s[i] != s[j] {
      assert s == s[..j] + ([s[j]] + s[j+1..]);
      assert s[i] in s[..j] && s[j] in [s[j]] + s[j+1..];
      assert multiset(s)[s[i]] == multiset(s[..j])[s[i]] + multiset([s[j]] + s[j+1..])[s[i]];
      assert multiset(s[..j])[s[i]] >= 1 && multiset([s[j]] + s[j+1..])[s[j]] >= 1;
    }
  }

  /** Sorting a list without repetitions gives a strictly ascending one. */
  lemma SortDistinct(s: seq<string>)
    requires Distinct(s)
    ensures StrictlySorted(Sort(s))
  {
    var r := Sort(s);
    SortSorts(s);
    SortElements(s);
    forall x | x in r ensures multiset(r)[x] == 1 { DistinctCounts(s, x); }
    CountsDistinct(r);
    forall i, j | 0 <= i < j < |r| ensures Less(r[i], r[j]) { LessTotal(r[i], r[j]); }
  }

  lemma StrictlySortedDistinct(s: seq<string>)
    requires StrictlySorted(s)
    ensures Distinct(s)
  {
    forall i, j | 0 <= i < j < |s| ensures s[i] != s[j] { LessAsymmetric(s[i], s[j]); }
  }

  /** A strictly ascending list is determined by the set of its elements. */
  lemma {:induction false} StrictlySortedUnique(s: seq<string>, t: seq<string>)
    requires StrictlySorted(s) && StrictlySorted(t)
    requires forall x :: x in s <==> x in t
    ensures s == t
  {
    assert s != [] ==> s[0] in s;
    assert t != [] ==> t[0] in t;
    if s != [] && t != [] {
      HeadIsLeast(s, t[0]);
      HeadIsLeast(t, s[0]);
      if s[0] != t[0] { LessAsymmetric(s[0], t[0]); }
      StrictlySortedDistinct(s);
      StrictlySortedDistinct(t);
      assert s == [s[0]] + s[1..] && t == [t[0]] + t[1..];
      forall x ensures x in s[1..] <==> x in t[1..] {
        assert x in s[1..] <==> x in s && x != s[0];
        assert x in t[1..] <==> x in t && x != t[0];
      }
      StrictlySortedUnique(s[1..], t[1..]);
    }
  }

  lemma HeadIsLeast(s: seq<string>, x: string)
    requires StrictlySorted(s) && x in s
    ensures x == s[0] || Less(s[0], x)
  {
    var i :| 0 <= i < |s| && s[i] == x;
  }

  /** Two lists without repetitions and with the same elements are rearrangements of each other. */
  lemma SameElementsSameMultiset<T>(s: seq<T>, t: seq<T>)
    requires Distinct(s) && Distinct(t)
    requires forall x :: x in s <==> x in t
    ensures multiset(s) == multiset(t)
  {
    forall x ensures multiset(s)[x] == multiset(t)[x] {
      DistinctCounts(s, x);
      DistinctCounts(t, x);
    }
  }

  function Flatten<T>(levels: seq<seq<T>>): seq<T> {
    if levels == [] then [] else Flatten(levels[..|levels|-1]) + levels[|levels|-1]
  }

  lemma {:induction false} FlattenMember<T>(levels: seq<seq<T>>, c: T)
    ensures c in Flatten(levels) <==> exists k :: 0 <= k < |levels| && c in levels[k]
  {
    if levels != [] {
      var n := |levels| - 1;
      FlattenMember(levels[..n], c);
    }
  }

  lemma DistinctConcat<T>(a: seq<T>, b: seq<T>)
    requires Distinct(a) && Distinct(b) && forall x | x in a :: x !in b
    ensures Distinct(a + b)
  {
    forall i, j | 0 <= i < j < |a + b| ensures (a + b)[i] != (a + b)[j] {
      if i < |a| <= j {
        assert a[i] in a && b[j - |a|] in b;
      }
    }
  }

  /** Map iteration order is arbitrary; sorting the keys afterwards removes it. */
  method SortedKeys(keys: set<string>) returns (ids: seq<string>)
    ensures StrictlySorted(ids) && Elements(ids) == keys && |ids| == |keys|
  {
    var rest := keys;
    ids := [];
    while rest != {}
      invariant rest <= keys && Elements(ids) == keys - rest && |ids| == |keys| - |rest|
      invariant Distinct(ids)
    {
      var id :| id in rest;
      assert id !in Elements(ids);
      assert Elements(ids + [id]) == Elements(ids) + {id};
      ids, rest := ids + [id], rest - {id};
    }
    SortDistinct(ids);
    SortElements(ids);
    assert Elements(Sort(ids)) == Elements(ids);
    ids := Sort(ids);
  }
}
