/**
 What `encoding/json` keeps of a Go string: runes, and a mark for every byte that starts no valid rune
 (section 4 of RFC 3629). Characters below 256 stand for bytes.
 */
module Utf8 {

  /** The byte at a position, or -1 past the end. */
  function ByteAt(s: string, i: nat): int {
    if i < |s| then s[i] as int else -1
  }

  predicate Tail(b: int) { 0x80 <= b <= 0xBF }

  /** The length of the valid rune at the start of the text, or 0 if its first byte starts none. */
  function Width(s: string): (w: nat)
    ensures w <= 4 && w <= |s|
  {
    var a, b, c, d := ByteAt(s, 0), ByteAt(s, 1), ByteAt(s, 2), ByteAt(s, 3);
    if 0 <= a < 0x80 then 1
    else if 0xC2 <= a <= 0xDF && Tail(b) then 2
    else if ThreeByteStart(a, b) && Tail(c) then 3
    else if FourByteStart(a, b) && Tail(c) && Tail(d) then 4
    else 0
  }

  /** Shortest forms only, and no surrogates. */
  predicate ThreeByteStart(a: int, b: int) {
    || (a == 0xE0 && 0xA0 <= b <= 0xBF) || (a == 0xED && 0x80 <= b <= 0x9F)
    || ((0xE1 <= a <= 0xEC || a == 0xEE || a == 0xEF) && Tail(b))
  }

  /** Shortest forms only, and nothing above U+10FFFF. */
  predicate FourByteStart(a: int, b: int) {
    || (a == 0xF0 && 0x90 <= b <= 0xBF) || (a == 0xF4 && 0x80 <= b <= 0x8F)
    || (0xF1 <= a <= 0xF3 && Tail(b))
  }

  /** The code points that may be encoded. */
  predicate Scalar(cp: int) {
    0 <= cp < 0xD800 || 0xE000 <= cp <= 0x10FFFF
  }

  /** The UTF-8 form of a code point: six bits in each byte after the first. */
  function Encode(cp: int): (s: string)
    requires Scalar(cp)
    ensures 1 <= |s| <= 4
  {
    var last := (0x80 + cp % 64) as char;
    if cp < 0x80 then [cp as char]
    else if cp < 0x800 then [(0xC0 + cp / 64) as char, last]
    else if cp < 0x1_0000 then [(0xE0 + cp / 4096) as char, (0x80 + cp / 64 % 64) as char, last]
    else [(0xF0 + cp / 262144) as char, (0x80 + cp / 4096 % 64) as char, (0x80 + cp / 64 % 64) as char, last]
  }

  /** The encoding of every code point is recognised, whatever follows it. */
  lemma EncodeWidth(cp: int, rest: string)
    requires Scalar(cp)
    ensures Width(Encode(cp) + rest) == |Encode(cp)|
  {
    var s := Encode(cp) + rest;
    assert forall i | 0 <= i < |Encode(cp)| :: ByteAt(s, i) == Encode(cp)[i] as int;
    if cp >= 0x1_0000 {
      assert cp / 262144 <= 4;
    }
  }

  /** The bits of an encoded code point. */
  function Decode(s: string): int
    requires Width(s) > 0
  {
    var a, b, c, d := ByteAt(s, 0), ByteAt(s, 1), ByteAt(s, 2), ByteAt(s, 3);
    match Width(s)
    case 1 => a
    case 2 => (a - 0xC0) * 64 + (b - 0x80)
    case 3 => (a - 0xE0) * 4096 + (b - 0x80) * 64 + (c - 0x80)
    case _ => (a - 0xF0) * 262144 + (b - 0x80) * 4096 + (c - 0x80) * 64 + (d - 0x80)
  }

  /** One group of six bits. */
  lemma Group(x: int, b: int)
    requires 0 <= b < 64
    ensures (x * 64 + b) / 64 == x && (x * 64 + b) % 64 == b
  {
  }

  lemma TwoBytes(x: int, b: int)
    requires 2 <= x < 32 && 0 <= b < 64
    ensures Encode(x * 64 + b) == [(0xC0 + x) as char, (0x80 + b) as char]
  {
    Group(x, b);
  }

  lemma ThreeBytes(x: int, b: int, c: int)
    requires 0 <= x < 16 && 0 <= b < 64 && 0 <= c < 64
    requires Scalar(x * 4096 + b * 64 + c) && x * 4096 + b * 64 + c >= 0x800
    ensures Encode(x * 4096 + b * 64 + c) == [(0xE0 + x) as char, (0x80 + b) as char, (0x80 + c) as char]
  {
    var cp := x * 4096 + b * 64 + c;
    Group(x * 64 + b, c);
    assert cp / 64 == x * 64 + b;
    Group(x, b);
    assert cp / 4096 == x;
  }

  lemma FourBytes(x: int, b: int, c: int, d: int)
    requires 0 <= x <= 4 && 0 <= b < 64 && 0 <= c < 64 && 0 <= d < 64
    requires 0x1_0000 <= x * 262144 + b * 4096 + c * 64 + d <= 0x10FFFF
    ensures Encode(x * 262144 + b * 4096 + c * 64 + d) ==
            [(0xF0 + x) as char, (0x80 + b) as char, (0x80 + c) as char, (0x80 + d) as char]
  {
    var cp := x * 262144 + b * 4096 + c * 64 + d;
    Group(x * 4096 + b * 64 + c, d);
    assert cp / 64 == x * 4096 + b * 64 + c;
    Group(x * 64 + b, c);
    assert cp / 4096 == x * 64 + b;
    Group(x, b);
    assert cp / 262144 == x;
  }

  /** What is recognised is the encoding of a code point: shortest forms only, no surrogates, nothing too large. */
  lemma WidthDecodes(s: string)
    requires Width(s) > 0
    ensures Scalar(Decode(s)) && Encode(Decode(s)) == s[..Width(s)]
  {
    var w := Width(s);
    var b, c, d := ByteAt(s, 1) - 0x80, ByteAt(s, 2) - 0x80, ByteAt(s, 3) - 0x80;
    if w == 2 {
      TwoBytes(s[0] as int - 0xC0, b);
      assert s[..w] == [s[0], s[1]];
    } else if w == 3 {
      ThreeBytes(s[0] as int - 0xE0, b, c);
      assert s[..w] == [s[0], s[1], s[2]];
    } else if w == 4 {
      FourBytes(s[0] as int - 0xF0, b, c, d);
      assert s[..w] == [s[0], s[1], s[2], s[3]];
    } else {
      assert s[..w] == [s[0]];
    }
  }

  /** A rune starts the text exactly when the encoding of some code point does. */
  lemma WidthExact(s: string)
    ensures Width(s) > 0 <==> exists cp :: Scalar(cp) && Encode(cp) <= s
  {
    if Width(s) > 0 { WidthDecodes(s); }
    if cp :| Scalar(cp) && Encode(cp) <= s {
      EncodeWidth(cp, s[|Encode(cp)|..]);
      assert Encode(cp) + s[|Encode(cp)|..] == s;
    }
  }

  /** A rune, written as its own bytes, or a byte that was replaced. */
  datatype Token = Rune(bytes: string) | Replaced

  function Tokens(s: string): seq<Token> {
    if s == "" then []
    else if Width(s) == 0 then [Replaced] + Tokens(s[1..])
    else [Rune(s[..Width(s)])] + Tokens(s[Width(s)..])
  }

  /** `utf8.ValidString`. */
  predicate Valid(s: string) {
    s == "" || (Width(s) > 0 && Valid(s[Width(s)..]))
  }

  // ---- valid text is determined

  function Spelled(tokens: seq<Token>): string {
    if tokens == [] then ""
    else (match tokens[0] case Rune(bytes) => bytes case Replaced => "") + Spelled(tokens[1..])
  }

  lemma FirstToken(s: string)
    requires s != "" && Width(s) > 0
    ensures Tokens(s) == [Rune(s[..Width(s)])] + Tokens(s[Width(s)..]) && s == s[..Width(s)] + s[Width(s)..]
  {
  }

  lemma {:induction false} ValidTokens(s: string)
    ensures Valid(s) <==> Replaced !in Tokens(s)
  {
    if s != "" {
      if Width(s) > 0 {
        FirstToken(s);
        ValidTokens(s[Width(s)..]);
      } else {
        assert Tokens(s)[0] == Replaced;
      }
    }
  }

  lemma {:induction false} ValidSpelled(s: string)
    requires Valid(s)
    ensures Spelled(Tokens(s)) == s
  {
    if s != "" {
      FirstToken(s);
      var rest := s[Width(s)..];
      ValidSpelled(rest);
      assert Tokens(s)[1..] == Tokens(rest);
    }
  }

  // ---- the first invalid byte can be exchanged unnoticed

  /** A rune is recognized by its own bytes. */
  lemma WidthPrefix(s: string, t: string)
    requires Width(s) > 0 && s[..Width(s)] <= t
    ensures Width(t) == Width(s)
  {
    var w := Width(s);
    assert forall i | 0 <= i < w :: t[i] == s[..w][i] == s[i];
  }

  /** The texts differ only in bytes that occur in no rune. */
  predicate Alike(s: string, t: string) {
    |s| == |t| && forall i | 0 <= i < |s| :: t[i] == s[i] || t[i] as int >= 0xFE
  }

  lemma AlikeBehind(p: string, s: string, t: string)
    requires Alike(s, t) && s != t
    ensures Alike(p + s, p + t) && p + s != p + t
  {
    assert s == (p + s)[|p|..] && t == (p + t)[|p|..];
  }

  lemma ExchangeFirst(s: string) returns (t: string)
    requires s != "" && Width(s) == 0
    ensures t != s && Alike(s, t) && Tokens(t) == Tokens(s)
  {
    var c := if s[0] as int == 0xFF then 0xFE as char else 0xFF as char;
    t := [c] + s[1..];
    assert t[1..] == s[1..] && t[0] != s[0] && Width(t) == 0;
  }

  lemma ExchangeBehind(s: string, rest: string)
    requires s != "" && Width(s) > 0 && Tokens(rest) == Tokens(s[Width(s)..])
    ensures Tokens(s[..Width(s)] + rest) == Tokens(s)
  {
    var w := Width(s);
    var t := s[..w] + rest;
    WidthPrefix(s, t);
    assert t[w..] == rest && t[..w] == s[..w];
  }

  lemma ExchangeLater(s: string, rest: string) returns (t: string)
    requires s != "" && Width(s) > 0
    requires var back := s[Width(s)..]; rest != back && Alike(back, rest) && Tokens(rest) == Tokens(back)
    ensures t != s && Alike(s, t) && Tokens(t) == Tokens(s)
  {
    var front, back := s[..Width(s)], s[Width(s)..];
    t := front + rest;
    assert s == front + back;
    ExchangeBehind(s, rest);
    AlikeBehind(front, back, rest);
  }

  lemma {:induction false} Exchanged(s: string) returns (t: string)
    requires !Valid(s)
    ensures t != s && Alike(s, t) && Tokens(t) == Tokens(s)
  {
    var w := Width(s);
    if w == 0 {
      t := ExchangeFirst(s);
    } else {
      var rest := Exchanged(s[w..]);
      t := ExchangeLater(s, rest);
    }
  }

  lemma SameTokens(s: string, t: string)
    requires Valid(s) && Tokens(s) == Tokens(t)
    ensures s == t
  {
    ValidTokens(s);
    ValidTokens(t);
    ValidSpelled(s);
    ValidSpelled(t);
  }

  /** A text is the only one with its tokens if and only if it is valid. */
  lemma ValidExact(s: string)
    ensures (forall t :: Tokens(t) == Tokens(s) ==> t == s) <==> Valid(s)
  {
    if Valid(s) {
      forall t | Tokens(t) == Tokens(s) ensures t == s { SameTokens(s, t); }
    } else {
      var t := Exchanged(s);
    }
  }

  // ---- concatenation

  lemma {:induction false} ValidConcat(a: string, b: string)
    requires Valid(a) && Valid(b)
    ensures Valid(a + b)
  {
    if a == "" {
      assert a + b == b;
    } else {
      var w := Width(a);
      WidthPrefix(a, a + b);
      assert (a + b)[w..] == a[w..] + b;
      ValidConcat(a[w..], b);
    }
  }

  predicate EndsPlain(a: string) {
    a == "" || a[|a|-1] as int < 0x80
  }

  /** A text that ends in an ASCII character leaves no rune open. */
  lemma PlainWidth(a: string, b: string)
    requires a != "" && EndsPlain(a)
    ensures Width(a + b) == Width(a)
  {
    forall i: nat | i < |a| ensures ByteAt(a + b, i) == ByteAt(a, i) {}
    assert !Tail(ByteAt(a, |a| - 1));
  }

  lemma TokensStep(s: string, w: nat, t: Token)
    requires s != "" && w == (if Width(s) == 0 then 1 else Width(s))
    requires t == if Width(s) == 0 then Replaced else Rune(s[..w])
    ensures Tokens(s) == [t] + Tokens(s[w..])
  {
  }

  lemma Regroup<T>(t: T, a: seq<T>, b: seq<T>)
    ensures [t] + (a + b) == ([t] + a) + b
  {
  }

  lemma {:induction false} TokensConcat(a: string, b: string)
    requires EndsPlain(a)
    ensures Tokens(a + b) == Tokens(a) + Tokens(b)
  {
    if a == "" {
      assert a + b == b;
    } else {
      PlainWidth(a, b);
      var w := if Width(a) == 0 then 1 else Width(a);
      var t := if Width(a) == 0 then Replaced else Rune(a[..w]);
      assert (a + b)[w..] == a[w..] + b && (a + b)[..w] == a[..w];
      TokensConcat(a[w..], b);
      TokensStep(a, w, t);
      TokensStep(a + b, w, t);
      Regroup(t, Tokens(a[w..]), Tokens(b));
    }
  }
}
