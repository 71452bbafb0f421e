/** Slash-separated text and white space, as Go's strings package treats them. */
module Text {

  /** The white space `strings.TrimSpace` removes. */
  predicate IsSpace(c: char) {
    || '\t' <= c <= '\r' || c == ' '
    || c as int in {0x85, 0xA0, 0x1680, 0x2028, 0x2029, 0x202F, 0x205F, 0x3000}
    || 0x2000 <= c as int <= 0x200A
  }

  predicate Blank(s: string) {
    forall i | 0 <= i < |s| :: IsSpace(s[i])
  }

  function TrimLeft(s: string): (r: string)
    ensures |r| <= |s| && r == s[|s|-|r|..] && Blank(s[..|s|-|r|]) && (r != "" ==> !IsSpace(r[0]))
  {
    if s != "" && IsSpace(s[0]) then
      var r := TrimLeft(s[1..]);
      assert s[..|s|-|r|] == [s[0]] + s[1..][..|s|-1-|r|];
      r
    else s
  }

  function TrimRight(s: string): (r: string)
    ensures |r| <= |s| && r == s[..|r|] && Blank(s[|r|..]) && (r != "" ==> !IsSpace(r[|r|-1]))
  {
    if s != "" && IsSpace(s[|s|-1]) then
      var r := TrimRight(s[..|s|-1]);
      assert s[|r|..] == s[..|s|-1][|r|..] + [s[|s|-1]];
      r
    else s
  }

  /** `strings.TrimSpace`. */
  function TrimSpace(s: string): string {
    TrimRight(TrimLeft(s))
  }

  /** `strings.Split(p, "/")`. */
  function Split(p: string): (segs: seq<string>)
    ensures |segs| >= 1 && forall s | s in segs :: '/' !in s
  {
    if p == "" then [""]
    else
      var rest := Split(p[1..]);
      if p[0] == '/' then [""] + rest else [[p[0]] + rest[0]] + rest[1..]
  }

  /** `strings.Join(segs, "/")`. */
  function Join(segs: seq<string>): string {
    if |segs| == 0 then "" else if |segs| == 1 then segs[0] else segs[0] + "/" + Join(segs[1..])
  }

  lemma {:induction false} SplitConcat(x: string, y: string)
    ensures Split(x + "/" + y) == Split(x) + Split(y)
  {
    var w := x + "/" + y;
    if x == "" {
      assert w[1..] == y;
    } else {
      SplitConcat(x[1..], y);
      var rest, tail := Split(x[1..]), Split(y);
      assert Split(w[1..]) == rest + tail by { assert w[1..] == x[1..] + "/" + y; }
      assert w[0] == x[0];
      ConsConcat(x[0], rest, tail);
    }
  }

  lemma ConsConcat(c: char, rest: seq<string>, tail: seq<string>)
    requires |rest| >= 1
    ensures [""] + (rest + tail) == ([""] + rest) + tail
    ensures [[c] + (rest + tail)[0]] + (rest + tail)[1..] == ([[c] + rest[0]] + rest[1..]) + tail
  {
    assert (rest + tail)[1..] == rest[1..] + tail;
  }

  lemma {:induction false} SplitPlain(s: string)
    requires '/' !in s
    ensures Split(s) == [s]
  {
    if s != "" {
      SplitPlain(s[1..]);
      assert [s[0]] + s[1..] == s;
    }
  }

  lemma {:induction false} SplitJoin(segs: seq<string>)
    requires |segs| >= 1 && forall s | s in segs :: '/' !in s
    ensures Split(Join(segs)) == segs
  {
    SplitPlain(segs[0]);
    if |segs| > 1 {
      SplitJoin(segs[1..]);
      SplitConcat(segs[0], Join(segs[1..]));
      assert segs == [segs[0]] + segs[1..];
    }
  }

  lemma {:induction false} JoinConcat(a: seq<string>, b: seq<string>)
    requires a != [] && b != []
    ensures Join(a + b) == Join(a) + "/" + Join(b)
  {
    if |a| == 1 {
      assert (a + b)[1..] == b;
    } else {
      JoinConcat(a[1..], b);
      assert (a + b)[1..] == a[1..] + b;
    }
  }

  /** A directory entry: what `os.ReadDir` can return, and what cleaning leaves of a path. */
  predicate Name(s: string) {
    '/' !in s && s != "" && s != "." && s != ".."
  }

  lemma {:induction false} JoinOnly(segs: seq<string>, chars: string)
    requires '/' in chars && forall s, c | s in segs && c in s :: c in chars
    ensures forall c | c in Join(segs) :: c in chars
  {
    if |segs| == 1 {
      assert segs[0] in segs;
    } else if |segs| > 1 {
      JoinOnly(segs[1..], chars);
      assert segs[0] in segs;
    }
  }

  lemma {:induction false} SplitChars(p: string)
    ensures forall s, c | s in Split(p) && c in s :: c in p
  {
    if p != "" {
      SplitChars(p[1..]);
      var rest := Split(p[1..]);
      assert forall c | c in p[1..] :: c in p;
      assert rest[0] in rest;
    }
  }

  lemma {:induction false} JoinWithout(segs: seq<string>, c: char)
    requires c != '/' && forall s | s in segs :: c !in s
    ensures c !in Join(segs)
  {
    if |segs| == 1 {
      assert segs[0] in segs;
    } else if |segs| > 1 {
      JoinWithout(segs[1..], c);
      assert segs[0] in segs;
    }
  }

  /** One character in front of split segments. */
  function Cons(c: char, segs: seq<string>): (r: seq<string>)
    requires segs != []
    ensures r != []
  {
    if c == '/' then [""] + segs else [[c] + segs[0]] + segs[1..]
  }

  lemma SplitFirst(t: string, u: string)
    requires t != ""
    ensures Split(t) == Cons(t[0], Split(t[1..])) && Split(t + u) == Cons(t[0], Split(t[1..] + u))
  {
    assert (t + u)[0] == t[0] && (t + u)[1..] == t[1..] + u;
  }

  lemma {:induction false} SplitStem(t: string, u: string)
    ensures |Split(t + u)| >= |Split(t)|
    ensures forall i | 0 <= i < |Split(t)| - 1 :: Split(t + u)[i] == Split(t)[i]
  {
    if t != "" {
      SplitStem(t[1..], u);
      assert (t + u)[0] == t[0] && (t + u)[1..] == t[1..] + u;
    }
  }

  /** The segments with `u` appended to the last one. */
  function Extended(segs: seq<string>, u: string): seq<string>
    requires segs != []
  {
    segs[..|segs|-1] + [segs[|segs|-1] + u]
  }

  lemma PrefixExtended(head: string, segs: seq<string>, u: string)
    requires segs != []
    ensures [head] + Extended(segs, u) == Extended([head] + segs, u)
  {
    var longer := [head] + segs;
    assert longer[..|longer|-1] == [head] + segs[..|segs|-1];
  }

  lemma ConsExtended(c: char, segs: seq<string>, u: string)
    requires segs != []
    ensures Cons(c, Extended(segs, u)) == Extended(Cons(c, segs), u)
  {
    if c == '/' {
      PrefixExtended("", segs, u);
    } else if |segs| == 1 {
      assert [c] + (segs[0] + u) == ([c] + segs[0]) + u;
    } else {
      var rest := segs[1..];
      assert segs == [segs[0]] + rest;
      PrefixExtended(segs[0], rest, u);
      PrefixExtended([c] + segs[0], rest, u);
    }
  }

  /** Text without a slash extends the last segment. */
  lemma {:induction false} SplitExtend(t: string, u: string)
    requires '/' !in u
    ensures Split(t + u) == Extended(Split(t), u)
  {
    if t == "" {
      assert t + u == u && "" + u == u;
      SplitPlain(u);
    } else {
      SplitExtend(t[1..], u);
      SplitFirst(t, u);
      ConsExtended(t[0], Split(t[1..]), u);
    }
  }

  lemma {:induction false} JoinSplit(t: string)
    ensures Join(Split(t)) == t
  {
    if t != "" {
      JoinSplit(t[1..]);
      var rest := Split(t[1..]);
      if t[0] == '/' {
        assert Split(t)[1..] == rest;
        assert t == "" + "/" + t[1..];
      } else {
        assert Split(t)[1..] == rest[1..] && Split(t)[0] == [t[0]] + rest[0];
        assert t == [t[0]] + t[1..];
      }
    }
  }
}
