/**
 The frozen controller environment: a map kept as a sorted list of `key=value` strings, and its
 override operation (internal/controllerenv/controllerenv.go).
 */
module FrozenEnv {
  import opened Results
  import opened Order

  /** `values` is None for a Go nil slice. */
  datatype Frozen = Frozen(values: Option<seq<string>>, hash: string)

  const INJECTION: set<string> := {
    "BASH_ENV", "ENV", "SHELLOPTS", "BASHOPTS", "CDPATH", "GLOBIGNORE", "PROMPT_COMMAND",
    "LD_PRELOAD", "LD_LIBRARY_PATH", "DYLD_INSERT_LIBRARIES", "PYTHONPATH", "PYTHONHOME", "PERL5OPT",
    "RUBYOPT", "NODE_OPTIONS"}

  predicate IsGit(name: string) {
    "GIT_" <= name
  }

  predicate IsInjection(name: string) {
    name in INJECTION
  }

  predicate IsForbidden(name: string) {
    IsInjection(name) || IsGit(name)
  }

  // ---- key=value text

  /** `strings.Cut(s, "=")`. */
  function Cut(s: string): Option<(string, string)> {
    if s == "" then None
    else if s[0] == '=' then Some(("", s[1..]))
    else match Cut(s[1..])
      case None => None
      case Some((k, v)) => Some(([s[0]] + k, v))
  }

  function Pair(k: string, v: string): string {
    k + "=" + v
  }

  lemma {:induction false} CutPair(k: string, v: string)
    requires '=' !in k
    ensures Cut(Pair(k, v)) == Some((k, v))
  {
    if k == "" {
      assert Pair(k, v)[1..] == v;
    } else {
      CutPair(k[1..], v);
      assert Pair(k, v)[1..] == Pair(k[1..], v) && Pair(k, v)[0] == k[0];
      assert [k[0]] + k[1..] == k;
    }
  }

  lemma {:induction false} CutKey(s: string)
    requires Cut(s).Some?
    ensures '=' !in Cut(s).value.0
  {
    if s[0] != '=' { CutKey(s[1..]); }
  }

  /** The entry starts with the key and the first equals sign. */
  predicate Keyed(entry: string, k: string) {
    '=' !in k && k + "=" <= entry
  }

  /** Cutting finds the first equals sign. */
  lemma {:induction false} CutMeans(s: string)
    ensures Cut(s).None? <==> '=' !in s
    ensures forall k, v :: Cut(s) == Some((k, v)) <==> '=' !in k && s == k + "=" + v
  {
    if s != "" && s[0] != '=' {
      CutMeans(s[1..]);
      assert s == [s[0]] + s[1..];
    }
    if Cut(s).Some? { CutSplits(s); }
    forall k, v | '=' !in k && s == k + "=" + v ensures Cut(s) == Some((k, v)) {
      CutPair(k, v);
      assert s == Pair(k, v);
    }
  }

  lemma {:induction false} CutSplits(s: string)
    requires Cut(s).Some?
    ensures var (k, v) := Cut(s).value; '=' !in k && s == k + "=" + v
  {
    if s[0] == '=' {
      assert s == "" + "=" + s[1..];
    } else {
      CutSplits(s[1..]);
      var (k, v) := Cut(s[1..]).value;
      assert s == [s[0]] + (k + "=" + v) == ([s[0]] + k) + "=" + v;
    }
  }

  /** An entry has the key `k` exactly when it starts with `k=`; the rest is the value. */
  lemma CutKeyed(s: string, k: string)
    ensures Keyed(s, k) <==> Cut(s).Some? && Cut(s).value.0 == k
    ensures Keyed(s, k) ==> Cut(s) == Some((k, s[|k|+1..]))
  {
    CutMeans(s);
    if Keyed(s, k) { assert s == k + "=" + s[|k|+1..]; }
  }

  // ---- the map behind the list

  /** What a derived environment inherits: the last value of each named, permitted key. */
  function Inherited(values: seq<string>): (m: map<string, string>) {
    if values == [] then map[]
    else
      var m := Inherited(values[..|values|-1]);
      match Cut(values[|values|-1])
      case Some((k, v)) => if k != "" && !IsForbidden(k) then m[k := v] else m
      case None => m
  }

  predicate Admissible(k: string) {
    k != "" && '=' !in k && !IsInjection(k)
  }

  function Overrides(extra: map<string, string>): map<string, string> {
    map k | k in extra && Admissible(k) :: extra[k]
  }

  function Captured(f: Frozen): seq<string> {
    match f.values case None => [] case Some(vs) => vs
  }

  /** The variables of `f.With(extra)`. */
  function Derived(f: Frozen, extra: map<string, string>): map<string, string> {
    Inherited(Captured(f)) + Overrides(extra)
  }

  /** `values` lists `m` as key=value strings in strictly ascending key order. */
  ghost predicate Encodes(values: seq<string>, m: map<string, string>) {
    exists keys: seq<string> :: EncodesBy(values, m, keys)
  }

  predicate EncodesBy(values: seq<string>, m: map<string, string>, keys: seq<string>) {
    && StrictlySorted(keys) && Elements(keys) == m.Keys && |values| == |keys|
    && forall i | 0 <= i < |keys| :: keys[i] in m && values[i] == Pair(keys[i], m[keys[i]])
  }

  /** Keys that survive the text form. */
  predicate WellKeyed(m: map<string, string>) {
    forall k | k in m :: Admissible(k)
  }

  lemma {:induction false} InheritedKeys(values: seq<string>)
    ensures WellKeyed(Inherited(values)) && forall k | k in Inherited(values) :: !IsForbidden(k)
  {
    if values != [] {
      InheritedKeys(values[..|values|-1]);
      var last := values[|values|-1];
      if Cut(last).Some? { CutKey(last); }
    }
  }

  /** No derived environment holds an injection variable. */
  lemma DerivedKeys(f: Frozen, extra: map<string, string>)
    ensures WellKeyed(Derived(f, extra)) && forall k | k in Derived(f, extra) :: !IsInjection(k)
  {
    InheritedKeys(Captured(f));
  }

  // ---- digests; `sha` stands for the hex SHA-256 of a text

  function JoinLines(lines: seq<string>): string {
    if |lines| == 0 then "" else if |lines| == 1 then lines[0] else lines[0] + "\n" + JoinLines(lines[1..])
  }

  function Digest(sha: string -> string, values: seq<string>): string {
    sha(JoinLines(Sort(values)))
  }

  predicate Validates(sha: string -> string, f: Frozen) {
    f.values.Some? && f.hash != "" && f.hash == Digest(sha, f.values.value)
  }

  // ---- the operations

  method With(sha: string -> string, f: Frozen, extra: map<string, string>) returns (r: Frozen)
    requires forall s :: sha(s) != ""
    ensures r.values.Some? && Encodes(r.values.value, Derived(f, extra))
    ensures Validates(sha, r)
  {
    var vals := Inherit(Captured(f));
    vals := Override(vals, extra);
    var values := EncodeMap(vals);
    r := Frozen(Some(values), Digest(sha, values));
  }

  datatype EnvError = NotFrozen | HashMismatch

  method Validate(sha: string -> string, f: Frozen) returns (err: Option<EnvError>)
    ensures err == Some(NotFrozen) <==> f.values.None?
    ensures err == Some(HashMismatch) <==>
            f.values.Some? && (f.hash == "" || f.hash != sha(JoinLines(Sort(f.values.value))))
    ensures err == None <==> Validates(sha, f)
  {
    if f.values.None? {
      return Some(NotFrozen);
    }
    if f.hash == "" || f.hash != Digest(sha, f.values.value) {
      return Some(HashMismatch);
    }
    return None;
  }

  method Override(base: map<string, string>, extra: map<string, string>) returns (vals: map<string, string>)
    ensures vals == base + Overrides(extra)
  {
    vals := base;
    var rest := extra.Keys;
    while rest != {}
      invariant rest <= extra.Keys
      invariant forall k :: k in vals <==> k in base || (k in extra && k !in rest && Admissible(k))
      invariant forall k | k in vals ::
                vals[k] == if k in extra && k !in rest && Admissible(k) then extra[k] else base[k]
    {
      var key :| key in rest;
      if !(key == "" || '=' in key || IsInjection(key)) {
        vals := vals[key := extra[key]];
      }
      rest := rest - {key};
    }
  }

  method EncodeMap(vals: map<string, string>) returns (values: seq<string>)
    ensures Encodes(values, vals)
  {
    var keys := SortedKeys(vals.Keys);
    values := [];
    for i := 0 to |keys|
      invariant |values| == i && forall n | 0 <= n < i :: keys[n] in vals && values[n] == Pair(keys[n], vals[keys[n]])
    {
      assert keys[i] in Elements(keys);
      values := values + [keys[i] + "=" + vals[keys[i]]];
    }
    assert EncodesBy(values, vals, keys);
  }

  method Inherit(values: seq<string>) returns (vals: map<string, string>)
    ensures vals == Inherited(values)
  {
    vals := map[];
    for i := 0 to |values|
      invariant vals == Inherited(values[..i])
    {
      assert values[..i+1][..i] == values[..i];
      match Cut(values[i]) {
        case Some((key, value)) =>
          if key != "" && !IsForbidden(key) {
            vals := vals[key := value];
          }
        case None =>
      }
    }
    assert values[..|values|] == values;
  }

  /** The value of the first entry whose key is `name`. */
  function First(values: seq<string>, name: string): Option<string> {
    if values == [] then None
    else match Cut(values[0])
      case Some((k, v)) => if k == name then Some(v) else First(values[1..], name)
      case None => First(values[1..], name)
  }

  /** The first entry with the key decides a lookup. */
  lemma {:induction false} FirstMeans(values: seq<string>, name: string)
    ensures First(values, name).None? <==> forall i | 0 <= i < |values| :: !Keyed(values[i], name)
    ensures forall i | 0 <= i < |values| && Keyed(values[i], name) &&
            (forall j | 0 <= j < i :: !Keyed(values[j], name)) ::
              First(values, name) == Some(values[i][|name|+1..])
  {
    if values != [] {
      CutKeyed(values[0], name);
      var rest := values[1..];
      FirstMeans(rest, name);
      assert forall i | 0 < i < |values| :: values[i] == rest[i-1];
      assert forall i | 0 <= i < |rest| :: rest[i] == values[i+1];
    }
  }

  /** A derived environment inherits the last value of each permitted key that the list names. */
  lemma {:induction false} InheritedMeans(values: seq<string>, k: string)
    ensures k in Inherited(values) <==>
            k != "" && !IsForbidden(k) && exists i :: 0 <= i < |values| && Keyed(values[i], k)
    ensures forall i | k in Inherited(values) && 0 <= i < |values| && Keyed(values[i], k) &&
                       (forall j | i < j < |values| :: !Keyed(values[j], k)) ::
              Inherited(values)[k] == values[i][|k|+1..]
  {
    if values != [] {
      var n := |values| - 1;
      InheritedMeans(values[..n], k);
      InheritedStep(values, n, k);
    }
  }

  lemma InheritedStep(values: seq<string>, n: nat, k: string)
    requires |values| == n + 1
    ensures k in Inherited(values) <==>
            k in Inherited(values[..n]) || (k != "" && !IsForbidden(k) && Keyed(values[n], k))
    ensures k in Inherited(values) ==>
              Inherited(values)[k] ==
              if Keyed(values[n], k) then values[n][|k|+1..] else Inherited(values[..n])[k]
  {
    CutKeyed(values[n], k);
    InheritedKeys(values);
  }

  /** Which variables a derivation has, and their values, in terms of its two inputs. */
  lemma DerivedMeans(f: Frozen, extra: map<string, string>, k: string)
    ensures k in Derived(f, extra) <==>
            && k != "" && '=' !in k
            && k !in ["BASH_ENV", "ENV", "SHELLOPTS", "BASHOPTS", "CDPATH", "GLOBIGNORE", "PROMPT_COMMAND",
                      "LD_PRELOAD", "LD_LIBRARY_PATH", "DYLD_INSERT_LIBRARIES", "PYTHONPATH", "PYTHONHOME",
                      "PERL5OPT", "RUBYOPT", "NODE_OPTIONS"]
            && (k in extra || (!("GIT_" <= k) && exists i :: 0 <= i < |Captured(f)| && Keyed(Captured(f)[i], k)))
    ensures k in Derived(f, extra) && k in extra ==> Derived(f, extra)[k] == extra[k]
    ensures forall i | k in Derived(f, extra) && k !in extra && 0 <= i < |Captured(f)| && Keyed(Captured(f)[i], k) &&
                       (forall j | i < j < |Captured(f)| :: !Keyed(Captured(f)[j], k)) ::
              Derived(f, extra)[k] == Captured(f)[i][|k|+1..]
  {
    InheritedMeans(Captured(f), k);
  }

  method Lookup(f: Frozen, name: string) returns (value: Option<string>)
    ensures value == First(Captured(f), name)
  {
    var values := Captured(f);
    for i := 0 to |values|
      invariant First(values, name) == First(values[i..], name)
    {
      match Cut(values[i]) {
        case Some((k, v)) =>
          if k == name {
            return Some(v);
          }
        case None =>
      }
      assert values[i..][1..] == values[i+1..];
    }
    return None;
  }

  // ---- the list and the map carry the same information

  lemma EncodesUnique(values: seq<string>, values': seq<string>, m: map<string, string>)
    requires Encodes(values, m) && Encodes(values', m)
    ensures values == values'
  {
    var keys :| EncodesBy(values, m, keys);
    var keys' :| EncodesBy(values', m, keys');
    forall x ensures x in keys <==> x in keys' {
      assert x in keys <==> x in Elements(keys);
      assert x in keys' <==> x in Elements(keys');
    }
    StrictlySortedUnique(keys, keys');
  }

  /** The list in words: one entry `key=value` for each variable, the keys ascending. */
  lemma EncodesMeans(values: seq<string>, m: map<string, string>)
    requires Encodes(values, m) && WellKeyed(m)
    ensures |values| == |m|
    ensures forall k | k in m :: k + "=" + m[k] in values
    ensures forall i, j, k, l | 0 <= i < j < |values| && Keyed(values[i], k) && Keyed(values[j], l) :: Less(k, l)
  {
    var keys :| EncodesBy(values, m, keys);
    KeyCount(keys);
    forall k | k in m ensures k + "=" + m[k] in values {
      assert k in Elements(keys);
      var i :| 0 <= i < |keys| && keys[i] == k;
      assert values[i] == Pair(k, m[k]);
    }
    forall i, k | 0 <= i < |values| && Keyed(values[i], k) ensures k == keys[i] {
      assert values[i] == Pair(keys[i], m[keys[i]]);
      CutPair(keys[i], m[keys[i]]);
      CutKeyed(values[i], k);
    }
  }

  lemma {:induction false} KeyCount(keys: seq<string>)
    requires StrictlySorted(keys)
    ensures |Elements(keys)| == |keys|
  {
    if keys != [] {
      KeyCount(keys[1..]);
      StrictlySortedDistinct(keys);
      assert keys[0] !in keys[1..];
      assert Elements(keys) == Elements(keys[1..]) + {keys[0]} by { assert keys == [keys[0]] + keys[1..]; }
    }
  }

  /** Looking a name up in the list is looking it up in the map. */
  lemma LookupEncoded(values: seq<string>, m: map<string, string>, name: string)
    requires Encodes(values, m) && WellKeyed(m)
    ensures First(values, name) == if name in m then Some(m[name]) else None
  {
    var keys :| EncodesBy(values, m, keys);
    FirstByKeys(values, m, keys, name);
    assert name in m <==> name in Elements(keys);
  }

  lemma {:induction false} FirstByKeys(values: seq<string>, m: map<string, string>, keys: seq<string>, name: string)
    requires WellKeyed(m) && |values| == |keys|
    requires forall i | 0 <= i < |keys| :: keys[i] in m && values[i] == Pair(keys[i], m[keys[i]])
    ensures First(values, name) == if name in keys then Some(m[name]) else None
  {
    if values != [] {
      CutPair(keys[0], m[keys[0]]);
      FirstByKeys(values[1..], m, keys[1..], name);
    }
  }

  lemma EncodesInjective(values: seq<string>, m: map<string, string>, m': map<string, string>)
    requires Encodes(values, m) && Encodes(values, m') && WellKeyed(m) && WellKeyed(m')
    ensures m == m'
  {
    forall k ensures (k in m <==> k in m') && (k in m && k in m' ==> m[k] == m'[k]) {
      LookupEncoded(values, m, k);
      LookupEncoded(values, m', k);
    }
  }

  function Forbidden(m: map<string, string>): set<string> {
    set k | k in m && IsForbidden(k)
  }

  function Permitted(m: map<string, string>): map<string, string> {
    m - Forbidden(m)
  }

  /** Deriving from an encoded environment inherits its permitted keys. */
  lemma InheritedEncoded(values: seq<string>, m: map<string, string>)
    requires Encodes(values, m) && WellKeyed(m)
    ensures Inherited(values) == Permitted(m)
  {
    var keys :| EncodesBy(values, m, keys);
    InheritedByKeys(values, m, keys);
    forall k ensures k in m <==> k in keys { assert k in m <==> k in Elements(keys); }
    MinusAgrees(Inherited(values), m, Forbidden(m));
  }

  lemma MinusAgrees(a: map<string, string>, m: map<string, string>, gone: set<string>)
    requires forall k :: k in a <==> k in m && k !in gone
    requires forall k | k in a :: a[k] == m[k]
    ensures a == m - gone
  {
  }

  lemma {:induction false} InheritedByKeys(values: seq<string>, m: map<string, string>, keys: seq<string>)
    requires WellKeyed(m) && |values| == |keys|
    requires forall i | 0 <= i < |keys| :: keys[i] in m && values[i] == Pair(keys[i], m[keys[i]])
    ensures forall k :: k in Inherited(values) <==> k in keys && !IsForbidden(k)
    ensures forall k | k in Inherited(values) :: Inherited(values)[k] == m[k]
  {
    if values != [] {
      var n := |values| - 1;
      InheritedByKeys(values[..n], m, keys[..n]);
      CutPair(keys[n], m[keys[n]]);
      assert keys == keys[..n] + [keys[n]];
    }
  }

  /** A second derivation keeps every key of the first override. */
  predicate NoLostGit(a: map<string, string>, b: map<string, string>) {
    forall k | k in a && Admissible(k) && IsGit(k) :: k in b
  }

  /**
   Deriving twice equals deriving once with the second override on top, exactly when every GIT_ key
   the first override sets is set again by the second.
   */
  lemma OverrideExact(f: Frozen, a: map<string, string>, b: map<string, string>,
                      fa: Frozen, fab: Frozen, once: Frozen)
    requires fa.values.Some? && Encodes(fa.values.value, Derived(f, a))
    requires fab.values.Some? && Encodes(fab.values.value, Derived(fa, b))
    requires once.values.Some? && Encodes(once.values.value, Derived(f, a + b))
    ensures fab.values == once.values <==> NoLostGit(a, b)
  {
    DerivedKeys(f, a);
    DerivedKeys(fa, b);
    DerivedKeys(f, a + b);
    InheritedEncoded(fa.values.value, Derived(f, a));
    DerivedTwice(f, a, b);
    if NoLostGit(a, b) {
      EncodesUnique(fab.values.value, once.values.value, Derived(f, a + b));
    } else if fab.values == once.values {
      EncodesInjective(fab.values.value, Derived(fa, b), Derived(f, a + b));
    }
  }

  lemma DerivedTwice(f: Frozen, a: map<string, string>, b: map<string, string>)
    ensures Permitted(Derived(f, a)) + Overrides(b) == Derived(f, a + b) <==> NoLostGit(a, b)
  {
    InheritedKeys(Captured(f));
    var base, gone := Inherited(Captured(f)), Forbidden(Derived(f, a));
    OverridesMerge(a, b);
    MergeTwice(base, Overrides(a), Overrides(b), Overrides(a + b), gone);
    LostKeys(a, b, gone);
  }

  lemma OverridesMerge(a: map<string, string>, b: map<string, string>)
    ensures Overrides(a + b) == Overrides(a) + Overrides(b)
  {
  }

  /** Among the first override, the keys a second derivation drops are the GIT_ ones. */
  lemma LostKeys(a: map<string, string>, b: map<string, string>, gone: set<string>)
    requires forall k | k in Overrides(a) :: k in gone <==> IsForbidden(k)
    ensures NoLostGit(a, b) <==> forall k | k in Overrides(a) && k in gone :: k in Overrides(b)
  {
    if NoLostGit(a, b) {
      forall k | k in Overrides(a) && k in gone ensures k in Overrides(b) { assert Admissible(k) && IsGit(k); }
    } else {
      var k :| k in a && Admissible(k) && IsGit(k) && k !in b;
      assert k in Overrides(a) && IsForbidden(k);
    }
  }

  lemma MergeTwice(base: map<string, string>, a: map<string, string>, b: map<string, string>, ab: map<string, string>,
                   gone: set<string>)
    requires ab == a + b && base.Keys !! gone
    ensures ((base + a) - gone) + b == base + ab <==> forall k | k in a && k in gone :: k in b
  {
    var twice, once := ((base + a) - gone) + b, base + ab;
    forall k | k in a && k in gone && k !in b ensures k in once && k !in twice {}
    if forall k | k in a && k in gone :: k in b {
      assert twice.Keys == once.Keys;
    }
  }

  lemma LostKey(f: Frozen, a: map<string, string>, fa: Frozen, b: map<string, string>, k: string)
    requires fa.values.Some? && Encodes(fa.values.value, Derived(f, a))
    requires k in a && Admissible(k) && IsGit(k) && k !in b
    ensures k in Derived(f, a) && Derived(f, a)[k] == a[k] && k !in Derived(fa, b)
  {
    assert k in Overrides(a);
    DerivedKeys(f, a);
    assert Inherited(Captured(fa)) == Permitted(Derived(f, a)) by { InheritedEncoded(fa.values.value, Derived(f, a)); }
    assert k in Forbidden(Derived(f, a));
  }

  /** The failing side: an override of a `GIT_` key is lost by every further derivation that does not repeat it. */
  lemma LostOverride(f: Frozen, a: map<string, string>, fa: Frozen, b: map<string, string>, fab: Frozen, k: string)
    requires fa.values.Some? && Encodes(fa.values.value, Derived(f, a))
    requires fab.values.Some? && Encodes(fab.values.value, Derived(fa, b))
    requires k in a && Admissible(k) && IsGit(k) && k !in b
    ensures First(fa.values.value, k) == Some(a[k]) && First(fab.values.value, k) == None
  {
    LostKey(f, a, fa, b, k);
    DerivedKeys(f, a);
    DerivedKeys(fa, b);
    LookupEncoded(fa.values.value, Derived(f, a), k);
    LookupEncoded(fab.values.value, Derived(fa, b), k);
  }

  /** At a concrete input: set GIT_DIR, then derive once more with no override at all. */
  lemma GitDirLost(f: Frozen, a: map<string, string>, fa: Frozen, fab: Frozen, once: Frozen)
    requires a == map["GIT_DIR" := ".git"]
    requires fa.values.Some? && Encodes(fa.values.value, Derived(f, a))
    requires fab.values.Some? && Encodes(fab.values.value, Derived(fa, map[]))
    requires once.values.Some? && Encodes(once.values.value, Derived(f, a + map[]))
    ensures First(fa.values.value, "GIT_DIR") == Some(".git") && First(fab.values.value, "GIT_DIR") == None
    ensures fab.values != once.values
  {
    assert Admissible("GIT_DIR") && IsGit("GIT_DIR");
    LostOverride(f, a, fa, map[], fab, "GIT_DIR");
    OverrideExact(f, a, map[], fa, fab, once);
  }
}
