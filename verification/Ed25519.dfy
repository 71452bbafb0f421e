/**
 In-process Ed25519 verification: double-and-add and the cofactored equation
 (scripts/release_policy.py). The curve's group laws are an assumption (`IsGroup`); the rest is proved.
 */
module Ed25519 {
  import opened Results

  type Byte = x: int | 0 <= x < 256

  /** A set of points with addition, neutral element and negation. */
  datatype Group<!T> = Group(on: T -> bool, add: (T, T) -> T, zero: T, neg: T -> T)

  // The laws, one predicate each, so that a proof names the instances it uses.
  ghost predicate Closed<T(!new)>(g: Group<T>, x: T, y: T) { g.on(g.add(x, y)) }
  ghost predicate Commutes<T(!new)>(g: Group<T>, x: T, y: T) { g.add(x, y) == g.add(y, x) }
  ghost predicate Neutral<T(!new)>(g: Group<T>, x: T) { g.add(x, g.zero) == x }
  ghost predicate Associates<T(!new)>(g: Group<T>, x: T, y: T, z: T) { g.add(g.add(x, y), z) == g.add(x, g.add(y, z)) }
  ghost predicate Inverse<T(!new)>(g: Group<T>, x: T) { g.on(g.neg(x)) && g.add(x, g.neg(x)) == g.zero }

  /** A commutative group. */
  ghost predicate IsGroup<T(!new)>(g: Group<T>) {
    && g.on(g.zero)
    && (forall x, y {:trigger Closed(g, x, y)} | g.on(x) && g.on(y) :: Closed(g, x, y))
    && (forall x, y {:trigger Commutes(g, x, y)} | g.on(x) && g.on(y) :: Commutes(g, x, y))
    && (forall x {:trigger Neutral(g, x)} | g.on(x) :: Neutral(g, x))
    && (forall x, y, z {:trigger Associates(g, x, y, z)} | g.on(x) && g.on(y) && g.on(z) :: Associates(g, x, y, z))
    && (forall x {:trigger Inverse(g, x)} | g.on(x) :: Inverse(g, x))
  }

  /** n-fold addition, the meaning of a scalar multiple. */
  ghost function Times<T(!new)>(g: Group<T>, n: nat, p: T): (r: T)
    requires IsGroup(g) && g.on(p)
    ensures g.on(r)
  {
    if n == 0 then g.zero else assert Closed(g, Times(g, n - 1, p), p); g.add(Times(g, n - 1, p), p)
  }

  lemma Swap<T(!new)>(g: Group<T>, a: T, b: T, c: T, d: T)
    requires IsGroup(g) && g.on(a) && g.on(b) && g.on(c) && g.on(d)
    ensures g.add(g.add(a, b), g.add(c, d)) == g.add(g.add(a, c), g.add(b, d))
  {
    assert Closed(g, c, d) && Closed(g, b, d);
    assert Associates(g, a, b, g.add(c, d)) && Associates(g, b, c, d) && Commutes(g, b, c);
    assert Associates(g, c, b, d) && Associates(g, a, c, g.add(b, d));
  }

  lemma {:induction false} TimesSum<T(!new)>(g: Group<T>, m: nat, n: nat, p: T)
    requires IsGroup(g) && g.on(p)
    ensures Times(g, m + n, p) == g.add(Times(g, m, p), Times(g, n, p))
  {
    if n == 0 {
      assert Neutral(g, Times(g, m, p));
    } else {
      TimesSum(g, m, n - 1, p);
      assert Times(g, m + n, p) == g.add(Times(g, m + (n - 1), p), p);
      assert Associates(g, Times(g, m, p), Times(g, n - 1, p), p);
    }
  }

  lemma {:induction false} TimesOfSum<T(!new)>(g: Group<T>, n: nat, p: T, q: T)
    requires IsGroup(g) && g.on(p) && g.on(q) && g.on(g.add(p, q))
    ensures Times(g, n, g.add(p, q)) == g.add(Times(g, n, p), Times(g, n, q))
  {
    if n == 0 {
      assert Neutral(g, g.zero);
    } else {
      TimesOfSum(g, n - 1, p, q);
      Swap(g, Times(g, n - 1, p), Times(g, n - 1, q), p, q);
    }
  }

  lemma {:induction false} TimesTimes<T(!new)>(g: Group<T>, m: nat, n: nat, p: T)
    requires IsGroup(g) && g.on(p)
    ensures Times(g, m, Times(g, n, p)) == Times(g, m * n, p)
  {
    if m > 0 {
      TimesTimes(g, m - 1, n, p);
      TimesSum(g, (m - 1) * n, n, p);
      assert (m - 1) * n + n == m * n;
    }
  }

  lemma {:induction false} TimesZero<T(!new)>(g: Group<T>, n: nat)
    requires IsGroup(g)
    ensures Times(g, n, g.zero) == g.zero
  {
    if n > 0 { TimesZero(g, n - 1); }
    assert Neutral(g, g.zero);
  }

  /** One halving step of double-and-add. */
  lemma HalvingStep<T(!new)>(g: Group<T>, n: nat, result: T, point: T)
    requires IsGroup(g) && g.on(result) && g.on(point) && n > 0
    ensures g.on(g.add(point, point)) && g.on(g.add(result, point))
    ensures g.add(result, Times(g, n, point)) ==
            g.add(if n % 2 == 1 then g.add(result, point) else result, Times(g, n / 2, g.add(point, point)))
  {
    assert Closed(g, point, point) && Closed(g, result, point);
    var k := n / 2;
    TimesOfSum(g, k, point, point);
    TimesSum(g, k, k, point);
    var t := Times(g, k + k, point);
    if n % 2 == 1 {
      assert n - 1 == k + k;
      assert Times(g, n, point) == g.add(t, point);
      assert Commutes(g, t, point) && Associates(g, result, point, t);
    } else {
      assert n == k + k;
    }
  }

  /** `_ed25519_scalar_mul`: double-and-add computes the n-fold sum. */
  method ScalarMul<T(!new)>(g: Group<T>, point0: T, scalar0: nat) returns (result: T)
    requires IsGroup(g) && g.on(point0)
    ensures result == Times(g, scalar0, point0)
  {
    var point, scalar := point0, scalar0;
    result := g.zero;
    assert Commutes(g, g.zero, Times(g, scalar, point)) && Neutral(g, Times(g, scalar, point));
    while scalar != 0
      invariant g.on(point) && g.on(result)
      invariant g.add(result, Times(g, scalar, point)) == Times(g, scalar0, point0)
      decreases scalar
    {
      HalvingStep(g, scalar, result, point);
      if scalar % 2 == 1 {
        result := g.add(result, point);
      }
      point := g.add(point, point);
      scalar := scalar / 2;
    }
    assert Neutral(g, result);
  }

  // ---- little-endian scalars

  function FromLittleEndian(s: seq<Byte>): nat {
    if s == [] then 0 else s[0] + 256 * FromLittleEndian(s[1..])
  }

  function ToLittleEndian(n: nat, k: nat): (s: seq<Byte>)
    ensures |s| == k
    decreases k
  {
    if k == 0 then [] else [n % 256] + ToLittleEndian(n / 256, k - 1)
  }

  function Pow256(k: nat): nat {
    if k == 0 then 1 else 256 * Pow256(k - 1)
  }

  lemma {:induction false} LittleEndianRoundTrip(n: nat, k: nat)
    requires n < Pow256(k)
    ensures FromLittleEndian(ToLittleEndian(n, k)) == n
    decreases k
  {
    if k > 0 { LittleEndianRoundTrip(n / 256, k - 1); }
  }

  lemma LastDigit(a: Byte, x: nat, b: Byte, y: nat)
    requires a + 256 * x == b + 256 * y
    ensures a == b && x == y
  {
  }

  lemma {:induction false} LittleEndianInjective(s: seq<Byte>, t: seq<Byte>)
    requires |s| == |t| && FromLittleEndian(s) == FromLittleEndian(t)
    ensures s == t
  {
    if s != [] {
      assert s[0] == t[0] && FromLittleEndian(s[1..]) == FromLittleEndian(t[1..]) by {
        LastDigit(s[0], FromLittleEndian(s[1..]), t[0], FromLittleEndian(t[1..]));
      }
      assert s[1..] == t[1..] by { LittleEndianInjective(s[1..], t[1..]); }
      assert s == [s[0]] + s[1..];
      assert t == [t[0]] + t[1..];
    }
  }

  /** The first `n` bytes, each weighted with its power of 256. */
  ghost function Weighted(s: seq<Byte>, n: nat): nat
    requires n <= |s|
  {
    if n == 0 then 0 else Weighted(s, n - 1) + s[n-1] * Pow256(n - 1)
  }

  lemma {:induction false} WeightedShift(s: seq<Byte>, n: nat)
    requires n < |s|
    ensures Weighted(s, n + 1) == s[0] + 256 * Weighted(s[1..], n)
  {
    if n > 0 {
      WeightedShift(s, n - 1);
      ShiftTerm(s[n], n);
      assert s[1..][n-1] == s[n];
    } else {
      assert Weighted(s, 1) == s[0] * Pow256(0);
    }
  }

  lemma ShiftTerm(b: Byte, n: nat)
    requires n > 0
    ensures b * Pow256(n) == 256 * (b * Pow256(n - 1))
  {
  }

  /** Little-endian: byte i weighs 256^i. */
  lemma {:induction false} LittleEndianMeans(s: seq<Byte>)
    ensures FromLittleEndian(s) == Weighted(s, |s|)
  {
    if s != [] {
      LittleEndianMeans(s[1..]);
      WeightedShift(s, |s| - 1);
    }
  }

  /** The weights, and an example that tells the two byte orders apart. */
  lemma LittleEndianExample()
    ensures Pow256(0) == 1 && (forall k: nat :: Pow256(k + 1) == 256 * Pow256(k))
    ensures FromLittleEndian([1, 2]) == 513 && ToLittleEndian(513, 2) == [1, 2]
  {
    assert FromLittleEndian([2]) == 2 + 256 * FromLittleEndian([]);
    assert [1, 2][1..] == [2] && [2][1..] == [];
    assert ToLittleEndian(2, 1) == [2] + ToLittleEndian(0, 0);
  }

  // ---- verification

  /** 2^252 + 27742317777372353535851937790883648493, the order of the base point (section 5.1 of RFC 8032). */
  const L: nat := 0x1000_0000_0000_0000_0000_0000_0000_0000_14de_f9de_a2f7_9cd6_5812_631a_5cf5_d3ed

  /** The curve, its point decoding and SHA-512 as the verifier uses them. */
  datatype Scheme<!T> = Scheme(g: Group<T>, base: T, decode: seq<Byte> -> Option<T>, sha512: seq<Byte> -> nat)

  ghost predicate IsScheme<T(!new)>(c: Scheme<T>) {
    && IsGroup(c.g) && c.g.on(c.base)
    && forall s {:trigger c.decode(s)} :: c.decode(s).Some? ==> c.g.on(c.decode(s).value)
  }

  function Challenge<T>(c: Scheme<T>, r: seq<Byte>, publicKey: seq<Byte>, message: seq<Byte>): nat {
    c.sha512(r + publicKey + message) % L
  }

  /** The cofactored equation [8][S]B = [8](R + [h]A) of section 5.1.7 of RFC 8032. */
  ghost predicate Equation<T(!new)>(c: Scheme<T>, r: T, a: T, s: nat, h: nat)
    requires IsScheme(c) && c.g.on(r) && c.g.on(a)
  {
    assert Closed(c.g, r, Times(c.g, h, a));
    Times(c.g, 8, Times(c.g, s, c.base)) == Times(c.g, 8, c.g.add(r, Times(c.g, h, a)))
  }

  /** [8](R + X). */
  ghost function Eightfold<T(!new)>(c: Scheme<T>, r: T, x: T): T
    requires IsScheme(c) && c.g.on(r) && c.g.on(x)
  {
    assert Closed(c.g, r, x);
    Times(c.g, 8, c.g.add(r, x))
  }

  ghost predicate Accepts<T(!new)>(c: Scheme<T>, publicKey: seq<Byte>, message: seq<Byte>, signature: seq<Byte>)
    requires IsScheme(c)
  {
    && |publicKey| == 32 && |signature| == 64
    && var r, a, s := c.decode(signature[..32]), c.decode(publicKey), FromLittleEndian(signature[32..]);
       r.Some? && a.Some? && s < L &&
       Equation(c, r.value, a.value, s, Challenge(c, signature[..32], publicKey, message))
  }

  method Verify<T(!new,==)>(c: Scheme<T>, publicKey: seq<Byte>, message: seq<Byte>, signature: seq<Byte>)
    returns (ok: bool)
    requires IsScheme(c)
    ensures ok <==> Accepts(c, publicKey, message, signature)
    ensures ok <==>
            && |publicKey| == 32 && |signature| == 64
            && c.decode(signature[..32]).Some? && c.decode(publicKey).Some? && FromLittleEndian(signature[32..]) < L
            && (var r, a, s := c.decode(signature[..32]).value, c.decode(publicKey).value,
                FromLittleEndian(signature[32..]);
                var h := c.sha512(signature[..32] + publicKey + message) % L;
                Times(c.g, 8, Times(c.g, s, c.base)) == Eightfold(c, r, Times(c.g, h, a)))
  {
    if |publicKey| != 32 || |signature| != 64 {
      return false;
    }
    var pointR, pointA := c.decode(signature[..32]), c.decode(publicKey);
    if pointR.None? || pointA.None? {
      return false;
    }
    var scalarS := FromLittleEndian(signature[32..]);
    if scalarS >= L {
      return false;
    }
    var scalarH := Challenge(c, signature[..32], publicKey, message);
    var left := ScalarMul(c.g, c.base, scalarS);
    var scaled := ScalarMul(c.g, pointA.value, scalarH);
    var right := c.g.add(pointR.value, scaled);
    assert Closed(c.g, pointR.value, scaled);
    var left8 := ScalarMul(c.g, left, 8);
    var right8 := ScalarMul(c.g, right, 8);
    return left8 == right8;
  }

  lemma TimesWraps<T(!new)>(g: Group<T>, q: nat, r: nat, p: T)
    requires IsGroup(g) && g.on(p) && Times(g, L, p) == g.zero
    ensures Times(g, r + q * L, p) == Times(g, r, p)
  {
    TimesSum(g, r, q * L, p);
    TimesTimes(g, q, L, p);
    TimesZero(g, q);
    assert Neutral(g, Times(g, r, p));
  }

  /** Reducing a scalar modulo L does not change the multiple of a point whose order divides L. */
  lemma TimesModulo<T(!new)>(g: Group<T>, n: nat, p: T)
    requires IsGroup(g) && g.on(p) && Times(g, L, p) == g.zero
    ensures Times(g, n % L, p) == Times(g, n, p)
  {
    TimesWraps(g, n / L, n % L, p);
  }

  /** The response of section 5.1.6 of RFC 8032: S = (r + h * a) mod L. */
  function Response(r: nat, h: nat, a: nat): (s: nat)
    ensures s < L
  {
    (r + h * a) % L
  }

  /** The uncofactored equation of an honest signature. */
  lemma HonestEquation<T(!new)>(c: Scheme<T>, r: nat, a: nat, h: nat)
    requires IsScheme(c) && Times(c.g, L, c.base) == c.g.zero
    ensures Times(c.g, Response(r, h, a), c.base) ==
            c.g.add(Times(c.g, r, c.base), Times(c.g, h, Times(c.g, a, c.base)))
  {
    TimesModulo(c.g, r + h * a, c.base);
    TimesSum(c.g, r, h * a, c.base);
    TimesTimes(c.g, h, a, c.base);
  }

  /**
   Every signature made as section 5.1.6 of RFC 8032 prescribes is accepted: h is the hash of R, the
   public key and the message, and S the 32-byte little-endian text of (r + h * a) mod L.
   */
  lemma HonestSignatureAccepted<T(!new)>(c: Scheme<T>, r: nat, a: nat, h: nat, s: nat, encodedR: seq<Byte>,
                                         publicKey: seq<Byte>, message: seq<Byte>)
    requires IsScheme(c) && Times(c.g, L, c.base) == c.g.zero
    requires |encodedR| == |publicKey| == 32
    requires h == c.sha512(encodedR + publicKey + message) % L && s == (r + h * a) % L
    requires c.decode(encodedR) == Some(Times(c.g, r, c.base)) && c.decode(publicKey) == Some(Times(c.g, a, c.base))
    ensures Accepts(c, publicKey, message, encodedR + ToLittleEndian(s, 32))
  {
    var pointR, pointA := Times(c.g, r, c.base), Times(c.g, a, c.base);
    assert s < L && Equation(c, pointR, pointA, s, h) by { HonestSolves(c, r, a, h, s); }
    assert h == Challenge(c, encodedR, publicKey, message);
    EncodedAccepted(c, pointR, pointA, s, encodedR, publicKey, message);
  }

  lemma HonestSolves<T(!new)>(c: Scheme<T>, r: nat, a: nat, h: nat, s: nat)
    requires IsScheme(c) && Times(c.g, L, c.base) == c.g.zero && s == (r + h * a) % L
    ensures s < L && Equation(c, Times(c.g, r, c.base), Times(c.g, a, c.base), s, h)
  {
    HonestEquation(c, r, a, h);
  }

  /** A scalar that solves the equation is accepted in its 32-byte encoding. */
  lemma EncodedAccepted<T(!new)>(c: Scheme<T>, pointR: T, pointA: T, s: nat, encodedR: seq<Byte>, publicKey: seq<Byte>,
                                 message: seq<Byte>)
    requires IsScheme(c) && |encodedR| == |publicKey| == 32 && s < L
    requires c.decode(encodedR) == Some(pointR) && c.decode(publicKey) == Some(pointA)
    requires Equation(c, pointR, pointA, s, Challenge(c, encodedR, publicKey, message))
    ensures Accepts(c, publicKey, message, encodedR + ToLittleEndian(s, 32))
  {
    var signature := encodedR + ToLittleEndian(s, 32);
    assert signature[..32] == encodedR && signature[32..] == ToLittleEndian(s, 32);
    OrderFits();
    LittleEndianRoundTrip(s, 32);
  }

  lemma OrderFits()
    ensures L < Pow256(32)
  {
    assert Pow256(8) == 0x1_0000_0000_0000_0000;
    assert Pow256(16) == Pow256(8) * 0x1_0000_0000_0000_0000;
    assert Pow256(24) == Pow256(16) * 0x1_0000_0000_0000_0000;
    assert Pow256(32) == Pow256(24) * 0x1_0000_0000_0000_0000;
  }

  lemma Cancel<T(!new)>(g: Group<T>, x: T, y: T)
    requires IsGroup(g) && g.on(x) && g.on(y) && g.add(x, y) == x
    ensures y == g.zero
  {
    assert Inverse(g, x) && Commutes(g, x, g.neg(x));
    assert Associates(g, g.neg(x), x, y);
    assert Commutes(g, g.zero, y) && Neutral(g, y);
  }

  /** The base point has order exactly L. */
  ghost predicate ExactOrder<T(!new)>(c: Scheme<T>)
    requires IsScheme(c)
  {
    forall n: nat {:trigger Times(c.g, n, c.base)} :: Times(c.g, n, c.base) == c.g.zero <==> n % L == 0
  }

  /** Scalars below L with the same cofactored multiple are equal, because L is odd. */
  lemma ScalarUnique<T(!new)>(c: Scheme<T>, s: nat, t: nat)
    requires IsScheme(c) && ExactOrder(c) && s <= t < L
    requires Times(c.g, 8, Times(c.g, s, c.base)) == Times(c.g, 8, Times(c.g, t, c.base))
    ensures s == t
  {
    var d := t - s;
    EqualMultiples(c.g, s, d, c.base);
    Cancel(c.g, Times(c.g, 8 * s, c.base), Times(c.g, 8 * d, c.base));
    OddOrder(d);
  }

  lemma EqualMultiples<T(!new)>(g: Group<T>, s: nat, d: nat, p: T)
    requires IsGroup(g) && g.on(p) && Times(g, 8, Times(g, s, p)) == Times(g, 8, Times(g, s + d, p))
    ensures g.add(Times(g, 8 * s, p), Times(g, 8 * d, p)) == Times(g, 8 * s, p)
  {
    TimesTimes(g, 8, s, p);
    TimesTimes(g, 8, s + d, p);
    TimesSum(g, 8 * s, 8 * d, p);
    assert 8 * (s + d) == 8 * s + 8 * d;
  }

  lemma OddOrder(d: nat)
    requires d < L && (8 * d) % L == 0
    ensures d == 0
  {
    var k := (8 * d) / L;
    assert 8 * d == k * L && 0 <= k < 8;
    assert L % 8 == 5;
  }

  /** A message, a public key and an encoded R admit at most one 32-byte scalar. */
  lemma SignatureUnique<T(!new)>(c: Scheme<T>, publicKey: seq<Byte>, message: seq<Byte>, one: seq<Byte>, two: seq<Byte>)
    requires IsScheme(c) && ExactOrder(c)
    requires Accepts(c, publicKey, message, one) && Accepts(c, publicKey, message, two) && one[..32] == two[..32]
    ensures one == two
  {
    var s, t := FromLittleEndian(one[32..]), FromLittleEndian(two[32..]);
    if s <= t { ScalarUnique(c, s, t); } else { ScalarUnique(c, t, s); }
    LittleEndianInjective(one[32..], two[32..]);
    assert one == one[..32] + one[32..] && two == two[..32] + two[32..];
  }

  /** Multiplying by the cofactor forgives exactly a difference whose order divides 8. */
  lemma CofactorExact<T(!new)>(g: Group<T>, x: T, y: T)
    requires IsGroup(g) && g.on(x) && g.on(y)
    ensures g.on(g.neg(y)) && g.on(g.add(x, g.neg(y)))
    ensures Times(g, 8, x) == Times(g, 8, y) <==> Times(g, 8, g.add(x, g.neg(y))) == g.zero
  {
    assert Inverse(g, y) && Closed(g, x, g.neg(y));
    var d := g.add(x, g.neg(y));
    assert g.add(d, y) == x by {
      assert Associates(g, x, g.neg(y), y) && Commutes(g, g.neg(y), y) && Neutral(g, x);
    }
    assert Closed(g, d, y);
    TimesOfSum(g, 8, d, y);
    var d8, y8 := Times(g, 8, d), Times(g, 8, y);
    assert Commutes(g, d8, y8) && Neutral(g, y8);
    if Times(g, 8, x) == y8 { Cancel(g, y8, d8); }
  }

  // ---- the concrete addition law

  const Q: nat := 0x7fff_ffff_ffff_ffff_ffff_ffff_ffff_ffff_ffff_ffff_ffff_ffff_ffff_ffff_ffff_ffed

  /** Python's three-argument `pow` with modulus Q. */
  function PowMod(b: int, e: nat): (r: nat)
    ensures r < Q
  {
    if e == 0 then 1 else (b * PowMod(b, e - 1)) % Q
  }

  /** `_ed25519_add` for the curve constant `d`. */
  function EdwardsAdd(d: int, left: (int, int), right: (int, int)): (int, int) {
    var (x1, y1) := left;
    var (x2, y2) := right;
    var t := d * x1 * x2 * y1 * y2 % Q;
    (((x1 * y2 + x2 * y1) * PowMod(1 + t, Q - 2)) % Q,
     ((y1 * y2 + x1 * x2) * PowMod(1 - t, Q - 2)) % Q)
  }

  lemma {:induction false} PowModOne(e: nat)
    ensures PowMod(1, e) == 1
  {
    if e > 0 { PowModOne(e - 1); }
  }

  lemma ProductsCommute(d: int, x1: int, y1: int, x2: int, y2: int)
    ensures d * x1 * x2 * y1 * y2 == d * x2 * x1 * y2 * y1
  {
    assert d * x1 * x2 == d * x2 * x1 by { assert d * x1 * x2 == d * (x1 * x2) == d * (x2 * x1) == d * x2 * x1; }
    var k := d * x2 * x1;
    assert k * y1 * y2 == k * (y1 * y2) == k * (y2 * y1) == k * y2 * y1;
  }

  /** The concrete law commutes, and (0, 1), where the loop starts, is neutral for reduced coordinates. */
  lemma EdwardsCommutes(d: int, p: (int, int), q: (int, int))
    ensures EdwardsAdd(d, p, q) == EdwardsAdd(d, q, p)
  {
    ProductsCommute(d, p.0, p.1, q.0, q.1);
    assert p.0 * q.1 + q.0 * p.1 == q.0 * p.1 + p.0 * q.1;
    assert p.1 * q.1 + p.0 * q.0 == q.1 * p.1 + q.0 * p.0;
  }

  lemma EdwardsNeutral(d: int, p: (int, int))
    requires 0 <= p.0 < Q && 0 <= p.1 < Q
    ensures EdwardsAdd(d, (0, 1), p) == p
  {
    PowModOne(Q - 2);
    assert d * 0 * p.0 * 1 * p.1 == 0;
  }

  // ---- the verifier over the concrete addition

  type Point = (int, int)

  function EdwardsGroup(d: int, on: Point -> bool, neg: Point -> Point): Group<Point> {
    Group(on, (p: Point, q: Point) => EdwardsAdd(d, p, q), (0, 1), neg)
  }

  /** What is assumed of the curve: reduced coordinates, closure, associativity and inverses. */
  ghost predicate CurveLaws(g: Group<Point>) {
    && g.on(g.zero)
    && (forall p {:trigger g.on(p)} | g.on(p) :: 0 <= p.0 < Q && 0 <= p.1 < Q)
    && (forall x, y {:trigger Closed(g, x, y)} | g.on(x) && g.on(y) :: Closed(g, x, y))
    && (forall x, y, z {:trigger Associates(g, x, y, z)} | g.on(x) && g.on(y) && g.on(z) :: Associates(g, x, y, z))
    && (forall x {:trigger Inverse(g, x)} | g.on(x) :: Inverse(g, x))
  }

  /** Commutativity and the neutral element need no assumption: they follow from the code's formula. */
  lemma EdwardsIsGroup(d: int, on: Point -> bool, neg: Point -> Point)
    requires CurveLaws(EdwardsGroup(d, on, neg))
    ensures IsGroup(EdwardsGroup(d, on, neg))
  {
    var g := EdwardsGroup(d, on, neg);
    forall x, y | g.on(x) && g.on(y) ensures Commutes(g, x, y) { EdwardsCommutes(d, x, y); }
    forall x | g.on(x) ensures Neutral(g, x) {
      EdwardsCommutes(d, x, (0, 1));
      EdwardsNeutral(d, x);
    }
  }

  // ---- the constants of section 5.1 of RFC 8032

  function Power(b: nat, n: nat): nat {
    if n == 0 then 1 else b * Power(b, n - 1)
  }

  lemma Regroup(a: nat, b: nat, c: nat)
    ensures a * (b * c) == a * b * c
  {
  }

  lemma {:induction false} PowerSum(b: nat, m: nat, n: nat)
    ensures Power(b, m + n) == Power(b, m) * Power(b, n)
  {
    if m > 0 {
      PowerSum(b, m - 1, n);
      Regroup(b, Power(b, m - 1), Power(b, n));
    }
  }

  lemma Power64()
    ensures Power(2, 64) == 0x1_0000_0000_0000_0000
  {
    assert Power(2, 8) == 0x100;
    PowerSum(2, 8, 8);
    PowerSum(2, 16, 16);
    PowerSum(2, 32, 32);
  }

  lemma Power192()
    ensures Power(2, 192) == 0x1_0000_0000_0000_0000_0000_0000_0000_0000_0000_0000_0000_0000
  {
    Power64();
    PowerSum(2, 64, 64);
    PowerSum(2, 128, 64);
  }

  lemma Power60()
    ensures Power(2, 60) == 0x1000_0000_0000_0000
  {
    assert Power(2, 4) == 0x10;
    PowerSum(2, 60, 4);
    Power64();
  }

  lemma Power252()
    ensures Power(2, 252) == 0x1000_0000_0000_0000_0000_0000_0000_0000_0000_0000_0000_0000_0000_0000_0000_0000
  {
    Power192();
    Power60();
    PowerSum(2, 192, 60);
  }

  /** L = 2^252 + 27742317777372353535851937790883648493 and Q = 2^255 - 19. */
  lemma CurveConstants()
    ensures L == Power(2, 252) + 27742317777372353535851937790883648493
    ensures Q == Power(2, 255) - 19
  {
    Power252();
    assert Power(2, 3) == 8;
    PowerSum(2, 3, 252);
  }
}
