/**
 The schema's own check of a write pattern, and when it rules out patterns that climb
 (internal/contracts/schema.go, validatePathPatterns).
 */
module SchemaPatterns {
  import opened Text
  import opened Envelope

  /** `cleaned == ".." || strings.HasPrefix(cleaned, "../")`. */
  predicate EscapesText(cleaned: string) {
    cleaned == ".." || HasPrefix(cleaned, "../")
  }

  /** No error for one pattern. */
  predicate SchemaPattern(raw: string) {
    SchemaValue(TrimSpace(raw))
  }

  /** The checks on the trimmed text; `filepath.IsAbs` looks for a slash before backslashes are replaced. */
  predicate SchemaValue(value: string) {
    && value != ""
    && '\0' !in value && '\r' !in value && '\n' !in value
    && value[0] != '/'
    && !EscapesText(Normalize(value))
  }

  datatype PatternError = IsBlank(item: nat) | HasControl(item: nat) | IsAbsolute(item: nat) | Escapes(item: nat)

  predicate HasControlChar(value: string) {
    '\0' in value || '\r' in value || '\n' in value
  }

  /** The errors of one pattern: a blank or an absolute one is not examined further. */
  method CheckPattern(i: nat, raw: string) returns (errs: seq<PatternError>)
    ensures errs == [] <==> SchemaPattern(raw)
    ensures IsBlank(i) in errs <==> TrimSpace(raw) == ""
    ensures HasControl(i) in errs <==> '\0' in TrimSpace(raw) || '\r' in TrimSpace(raw) || '\n' in TrimSpace(raw)
    ensures IsAbsolute(i) in errs <==> "/" <= TrimSpace(raw)
    ensures Escapes(i) in errs <==>
            TrimSpace(raw) != "" && !("/" <= TrimSpace(raw)) &&
            (Normalize(TrimSpace(raw)) == ".." || "../" <= Normalize(TrimSpace(raw)))
    ensures forall e | e in errs :: e.item == i
  {
    var value := TrimSpace(raw);
    errs := [];
    if value == "" {
      return [IsBlank(i)];
    }
    if HasControlChar(value) {
      errs := errs + [HasControl(i)];
    }
    if value[0] == '/' {
      return errs + [IsAbsolute(i)];
    }
    if EscapesText(Normalize(value)) {
      errs := errs + [Escapes(i)];
    }
  }

  /** The errors of all patterns. */
  method ValidatePathPatterns(patterns: seq<string>) returns (errs: seq<PatternError>)
    ensures errs == [] <==> forall raw | raw in patterns :: SchemaPattern(raw)
  {
    errs := [];
    for i := 0 to |patterns|
      invariant errs == [] <==> forall raw | raw in patterns[..i] :: SchemaPattern(raw)
    {
      assert patterns[..i+1] == patterns[..i] + [patterns[i]];
      var more := CheckPattern(i, patterns[i]);
      errs := errs + more;
    }
    assert patterns[..|patterns|] == patterns;
  }

  lemma {:induction false} TrimTrailing(v: string, b: string)
    requires Blank(b) && v != "" && !IsSpace(v[|v|-1])
    ensures TrimRight(v + b) == v
  {
    if b == "" {
      assert v + b == v;
    } else {
      var n := |b| - 1;
      assert (v + b)[|v + b| - 1] == b[n] && IsSpace(b[n]);
      assert (v + b)[..|v + b| - 1] == v + b[..n];
      TrimTrailing(v, b[..n]);
    }
  }

  /** Which patterns the schema accepts, without trimming or cleaning: where the text between the spaces points. */
  lemma SchemaMeans(a: string, v: string, b: string)
    requires Blank(a) && Blank(b) && v != "" && !IsSpace(v[0]) && !IsSpace(v[|v|-1])
    ensures SchemaPattern(a + v + b) <==>
            '\0' !in v && '\r' !in v && '\n' !in v && v[0] != '/' && Denotes(v).ups == 0
  {
    assert a + v + b == a + (v + b) && (v + b)[0] == v[0];
    TrimLeading(a, v + b);
    TrimTrailing(v, b);
    DenotesPlain(v);
    EscapesExact(Denotes(v));
  }

  lemma EscapeStart(t: string)
    requires EscapesText(t)
    ensures Split(t)[0] == ".."
  {
    SplitPlain("..");
    if t != ".." {
      assert t == ".." + "/" + t[3..];
      SplitConcat("..", t[3..]);
    }
  }

  lemma ClimbText(l: Place)
    requires Proper(l) && l.ups > 0
    ensures EscapesText(Render(l))
  {
    var segs := Parents(l.ups) + l.path;
    assert segs[0] == ".." && Render(l) == Join(segs);
    if |segs| > 1 {
      assert Join(segs) == ".." + "/" + Join(segs[1..]);
      assert ".." + "/" == "../";
    }
  }

  /** The cleaned text escapes exactly when the place lies above the workspace. */
  lemma EscapesExact(l: Place)
    requires Proper(l)
    ensures EscapesText(Render(l)) <==> l.ups > 0
  {
    if l.ups > 0 {
      ClimbText(l);
    } else {
      LevelStart(l);
      if EscapesText(Render(l)) { EscapeStart(Render(l)); }
    }
  }

  // ---- trailing white space only makes the last segment a name

  lemma SlashesConcat(a: string, b: string)
    ensures Slashes(a + b) == Slashes(a) + Slashes(b)
  {
  }

  lemma BlankText(ws: string)
    requires Blank(ws)
    ensures Slashes(ws) == ws && '/' !in ws && (ws != "" ==> Name(ws))
  {
    assert forall c | c in ws :: IsSpace(c);
    if ws != "" { assert IsSpace(ws[0]) && ws[0] != '.'; }
  }

  lemma WalkLast(l: Place, front: seq<string>, last: string)
    ensures Walk(l, front + [last]) == Step(Walk(l, front), last)
  {
    WalkConcat(l, front, [last]);
    var m := Walk(l, front);
    assert Walk(m, [last]) == Step(m, last);
  }

  lemma TrailingSpace(value: string, trail: string)
    requires value != "" && Blank(trail)
    ensures Denotes(value + trail).ups <= Denotes(value).ups
  {
    var v := Slashes(value);
    BlankText(trail);
    SlashesConcat(value, trail);
    SplitExtend(v, trail);
    var segs := Split(v);
    var front, last := segs[..|segs|-1], segs[|segs|-1];
    assert segs == front + [last];
    WalkLast(Start(v), front, last);
    WalkLast(Start(v), front, last + trail);
    assert Start(v + trail) == Start(v);
    if trail != "" {
      assert (last + trail)[|last + trail| - 1] == trail[|trail|-1] && IsSpace(trail[|trail|-1]);
    } else {
      assert last + trail == last;
    }
  }

  predicate LeadingSpace(raw: string) {
    raw != "" && IsSpace(raw[0])
  }

  /** Without leading white space, a pattern the schema accepts does not climb. */
  lemma AcceptedLevel(raw: string)
    requires SchemaPattern(raw) && !LeadingSpace(raw)
    ensures Denotes(raw).ups == 0
  {
    assert TrimLeft(raw) == raw;
    LevelValue(TrimRight(raw));
    var trail := TrimmedRight(raw);
    TrailingSpace(TrimRight(raw), trail);
  }

  lemma LevelValue(value: string)
    requires SchemaValue(value)
    ensures Denotes(value).ups == 0
  {
    DenotesPlain(value);
    EscapesExact(Denotes(value));
  }

  lemma TrimmedRight(raw: string) returns (trail: string)
    ensures raw == TrimRight(raw) + trail && Blank(trail)
  {
    trail := raw[|TrimRight(raw)|..];
  }

  // ---- leading white space: the schema sees an absolute path, the envelope a relative one

  const CLIMB: string := "\\..\\..\\.."

  lemma {:induction false} TrimLeading(ws: string, rest: string)
    requires Blank(ws) && !LeadingSpace(rest) && rest != ""
    ensures TrimLeft(ws + rest) == rest
  {
    if ws == "" {
      assert ws + rest == rest;
    } else {
      assert (ws + rest)[0] == ws[0] && (ws + rest)[1..] == ws[1..] + rest;
      TrimLeading(ws[1..], rest);
    }
  }

  lemma ClimbSegments()
    ensures Slashes(CLIMB) == "/" + "../../.." && Split("../../..") == ["..", "..", ".."]
  {
    assert Slashes(CLIMB) == "/../../..";
    SplitPlain("..");
    SplitConcat("..", "..");
    SplitConcat("..", "../..");
    assert ".." + "/" + "../.." == "../../.." && ".." + "/" + ".." == "../..";
  }

  lemma ClimbRooted()
    ensures Denotes(CLIMB) == Place(true, 0, []) && Normalize(CLIMB) == "/"
  {
    ClimbSegments();
    SplitConcat("", "../../..");
    SplitPlain("");
    assert "" + "/" + "../../.." == "/" + "../../..";
    var start := Place(true, 0, []);
    assert Start(Slashes(CLIMB)) == start;
    assert [""] + ["..", "..", ".."] == ["", "..", "..", ".."];
    WalkStays(start, ["", "..", "..", ".."]);
    assert "/" + Join([]) == "/";
  }

  lemma {:induction false} WalkStays(l: Place, segs: seq<string>)
    requires l.rooted && l.path == [] && forall s | s in segs :: s == "" || s == ".."
    ensures Walk(l, segs) == l
    decreases |segs|
  {
    if segs != [] {
      assert segs[0] in segs && forall s | s in segs[1..] :: s in segs;
      WalkStays(l, segs[1..]);
    }
  }

  lemma SchemaAcceptsClimb(ws: string)
    requires Blank(ws)
    ensures SchemaPattern(ws + CLIMB)
  {
    TrimLeading(ws, CLIMB);
    ClimbValue();
  }

  lemma ClimbChars()
    ensures CLIMB != "" && CLIMB[0] == '\\' && CLIMB[|CLIMB|-1] == '.' && forall c | c in CLIMB :: c == '.' || c == '\\'
  {
  }

  lemma ClimbValue()
    ensures TrimRight(CLIMB) == CLIMB && SchemaValue(CLIMB)
  {
    ClimbRooted();
    ClimbChars();
    RootLevel();
  }

  lemma RootLevel()
    ensures !EscapesText("/")
  {
  }

  lemma ClimbAfterSpace(ws: string)
    requires Blank(ws) && ws != ""
    ensures Denotes(ws + CLIMB) == Place(false, 2, [])
  {
    ClimbSegments();
    BlankText(ws);
    SlashesConcat(ws, CLIMB);
    var q := ws + ("/" + "../../..");
    assert q == ws + "/" + "../../..";
    SplitConcat(ws, "../../..");
    SplitPlain(ws);
    var start := Place(false, 0, []);
    assert Start(q) == start by { assert q[0] == ws[0] && ws[0] in ws; }
    WalkConcat(start, [ws], ["..", "..", ".."]);
    assert Walk(start, [ws]) == Step(start, ws) == Place(false, 0, [ws]);
    WalkClimb(ws);
  }

  lemma WalkClimb(name: string)
    ensures Walk(Place(false, 0, [name]), ["..", "..", ".."]) == Place(false, 2, [])
  {
    var a, b := Place(false, 0, [name]), Place(false, 0, []);
    assert Step(a, "..") == b;
    assert ["..", "..", ".."][1..] == Parents(2);
    WalkParents(b, 2);
  }

  /** For every white-space prefix: accepted by the schema, covered by the parent envelope, and above it. */
  lemma SpacedEscape(ws: string)
    requires Blank(ws) && ws != ""
    ensures SchemaPattern(ws + CLIMB) && Denotes(ws + CLIMB).ups == 2
    ensures PatternCovers("../**", ws + CLIMB) && !Within("../**", ws + CLIMB)
  {
    SchemaAcceptsClimb(ws);
    ClimbAfterSpace(ws);
    ParentEnvelope();
    ParentsCover("../**", 2);
    ParentsAreClean(2);
    assert Parents(2) + [] == Parents(2);
    assert Normalize(ws + CLIMB) == Normalize(Join(Parents(2)));
    if Normalize("../**") == Normalize(ws + CLIMB) { SamePlace("../**", ws + CLIMB); }
  }

  lemma ParentEnvelope()
    ensures Denotes("../**") == Place(false, 1, ["**"])
  {
    assert Slashes("../**") == ".." + "/" + "**";
    SplitConcat("..", "**");
    SplitPlain("..");
    SplitPlain("**");
    var start := Place(false, 0, []);
    assert Start(".." + "/" + "**") == start;
    WalkConcat(start, [".."], ["**"]);
    assert Walk(start, [".."]) == Place(false, 1, []);
    assert Walk(Place(false, 1, []), ["**"]) == Place(false, 1, ["**"]);
  }

  /** The schema rules out climbing patterns behind a white-space prefix if and only if the prefix is empty. */
  lemma SpaceExact(ws: string)
    requires Blank(ws)
    ensures (forall rest | !LeadingSpace(rest) && SchemaPattern(ws + rest) :: Denotes(ws + rest).ups == 0) <==> ws == ""
  {
    if ws == "" {
      forall rest | !LeadingSpace(rest) && SchemaPattern(ws + rest) ensures Denotes(ws + rest).ups == 0 {
        assert ws + rest == rest;
        AcceptedLevel(rest);
      }
    } else {
      SpacedEscape(ws);
      assert !LeadingSpace(CLIMB);
    }
  }
}
