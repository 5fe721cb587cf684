/**
 X9.63 uncompressed to SEC 1 compressed points (sections 2.3.3 and 2.3.4 of SEC 1), as the secp256r1
 and secp256k1 verifiers do it, for an arbitrary odd prime field.
 */
module Compression {
  import opened Bytes

  /** Parity prefix, then the 32 octets of X. */
  function Compressed(pk: bytes): bytes
    requires |pk| >= 65
  {
    [2 + pk[64] % 2] + pk[1..33]
  }

  /** `compress`: reading past the end of a shorter key aborts; a longer one is not refused. */
  method Compress(pk: bytes) returns (r: Option<bytes>)
    ensures r == if |pk| >= 65 then Some(Compressed(pk)) else None
  {
    if |pk| <= 64 {
      return None;
    }
    var parity := pk[64] % 2;
    var out: bytes := [2 + parity];
    var i := 1;
    while i <= 32
      invariant 1 <= i <= 33
      invariant out == [2 + parity] + pk[1..i]
    {
      assert pk[1..i + 1] == pk[1..i] + [pk[i]];
      out := out + [pk[i]];
      i := i + 1;
    }
    return Some(out);
  }

  /** All that compression keeps of its argument. */
  lemma CompressedExact(a: bytes, b: bytes)
    requires |a| >= 65 && |b| >= 65
    ensures Compressed(a) == Compressed(b) <==> a[1..33] == b[1..33] && a[64] % 2 == b[64] % 2
  {
    assert Compressed(a)[0] == 2 + a[64] % 2 && Compressed(a)[1..] == a[1..33];
    assert Compressed(b)[0] == 2 + b[64] % 2 && Compressed(b)[1..] == b[1..33];
  }

  // Divisibility and primes.

  ghost predicate Divides(d: int, n: int) {
    exists k: int :: n == d * k
  }

  predicate Prime(p: nat) {
    p > 1 && forall d | 1 < d < p :: p % d != 0
  }

  lemma DividesMultiple(d: int, n: int, k: int)
    requires Divides(d, n)
    ensures Divides(d, n * k)
  {
    var q :| n == d * q;
    assert n * k == d * (q * k);
  }

  lemma DividesDifference(d: int, m: int, n: int)
    requires Divides(d, m) && Divides(d, n)
    ensures Divides(d, m - n)
  {
    var x :| m == d * x;
    var y :| n == d * y;
    assert m - n == d * (x - y);
  }

  lemma DividesBetween(d: int, m: int, n: int, c: int)
    requires Divides(d, m - c) && Divides(d, n - c)
    ensures Divides(d, m - n)
  {
    hide Divides;
    DividesDifference(d, m - c, n - c);
    assert (m - c) - (n - c) == m - n;
  }

  lemma ModToDivides(d: nat, n: int)
    requires d > 0 && n % d == 0
    ensures Divides(d, n)
  {
    assert n == d * (n / d);
  }

  lemma Products(d: int, k: int)
    requires d > 0
    ensures k >= 2 ==> d * k >= 2 * d
    ensures k >= 1 ==> d * k >= d
    ensures k <= 0 ==> d * k <= 0
    ensures k <= -1 ==> d * k <= -d
  {
    if k >= 2 {
      assert d * (k - 2) >= 0;
    } else if k <= -1 {
      assert d * (-1 - k) >= 0;
    }
  }

  /** Below twice the divisor only zero and the divisor itself are multiples. */
  lemma SmallMultiple(d: int, n: int)
    requires d > 0 && Divides(d, n) && -d < n < 2 * d
    ensures n == 0 || n == d
  {
    var k :| n == d * k;
    Products(d, k);
  }

  /** The least positive multiplier that brings `b` to a multiple of `p`. */
  lemma LeastMultiplier(p: nat, b: int) returns (m: nat)
    requires p > 0
    ensures 0 < m <= p && Divides(p, m * b)
    ensures forall k | 0 < k < m :: !Divides(p, k * b)
  {
    m := p;
    assert p * b == p * b;
    while exists k :: 0 < k < m && Divides(p, k * b)
      invariant 0 < m <= p && Divides(p, m * b)
      decreases m
    {
      var k :| 0 < k < m && Divides(p, k * b);
      m := k;
    }
  }

  lemma RemainderProduct(n: int, m: int, q: int, r: int, b: int)
    requires n == m * q + r
    ensures n * b - m * b * q == r * b
  {
    assert n * b == (m * q) * b + r * b;
    assert (m * q) * b == m * b * q;
  }

  /** It divides every other such multiplier. */
  lemma LeastDividesAll(p: nat, b: int, m: nat, n: nat)
    requires 0 < m && Divides(p, m * b)
    requires forall k | 0 < k < m :: !Divides(p, k * b)
    requires Divides(p, n * b)
    ensures n % m == 0
  {
    var q, r := n / m, n % m;
    DividesMultiple(p, m * b, q);
    DividesDifference(p, n * b, m * b * q);
    RemainderProduct(n, m, q, r, b);
  }

  /** Euclid's lemma. */
  lemma PrimeDividesFactor(p: nat, a: nat, b: int)
    requires Prime(p) && Divides(p, a * b)
    ensures Divides(p, a) || Divides(p, b)
  {
    var m := LeastMultiplier(p, b);
    assert Divides(p, p * b);
    LeastDividesAll(p, b, m, p);
    if m == 1 {
      assert m * b == b;
    } else {
      assert m == p;
      LeastDividesAll(p, b, m, a);
      ModToDivides(p, a);
    }
  }

  lemma Factors(y: int, z: int)
    ensures y * y - z * z == (y - z) * (y + z)
  {
  }

  lemma OrderedSquareRoots(p: nat, y: nat, z: nat)
    requires Prime(p) && z <= y < p
    requires Divides(p, y * y - z * z)
    ensures y == z || y + z == p
  {
    hide Divides;
    Factors(y, z);
    PrimeDividesFactor(p, y - z, y + z);
    if Divides(p, y - z) {
      SmallMultiple(p, y - z);
    } else {
      SmallMultiple(p, y + z);
    }
  }

  /** Square roots modulo a prime come in pairs of opposite values. */
  lemma SquareRoots(p: nat, y: nat, z: nat)
    requires Prime(p) && y < p && z < p
    requires Divides(p, y * y - z * z)
    ensures y == z || y + z == p
  {
    hide Prime, Divides;
    if y < z {
      DividesMultiple(p, y * y - z * z, -1);
      OrderedSquareRoots(p, z, y);
    } else {
      OrderedSquareRoots(p, y, z);
    }
  }

  // Points.

  function X(pk: bytes): nat
    requires |pk| == 65
  {
    BigEndian(pk[1..33])
  }

  function Y(pk: bytes): nat
    requires |pk| == 65
  {
    BigEndian(pk[33..65])
  }

  /** 04, X, Y with both coordinates field elements and Y squared equal to f(X) in the field of order p. */
  ghost predicate OnCurve(p: nat, f: int -> int, pk: bytes) {
    && |pk| == 65 && pk[0] == 4
    && X(pk) < p && Y(pk) < p
    && Divides(p, Y(pk) * Y(pk) - f(X(pk)))
  }

  /** The last octet has the parity of the whole coordinate. */
  lemma ParityOfLast(pk: bytes)
    requires |pk| == 65
    ensures Y(pk) % 2 == pk[64] % 2
  {
    var y := pk[33..65];
    assert y[|y| - 1] == pk[64];
    assert BigEndian(y) == BigEndian(y[..31]) * 256 + pk[64];
  }

  lemma SamePoint(a: bytes, b: bytes)
    requires |a| == 65 && |b| == 65 && a[0] == b[0] && a[1..33] == b[1..33] && Y(a) == Y(b)
    ensures a == b
  {
    BigEndianInjective(a[33..65], b[33..65]);
    assert a == [a[0]] + a[1..33] + a[33..65];
    assert b == [b[0]] + b[1..33] + b[33..65];
  }

  /** On any curve over an odd prime field, compression loses nothing. */
  lemma CompressionInjective(p: nat, f: int -> int, a: bytes, b: bytes)
    requires Prime(p) && p % 2 == 1
    requires OnCurve(p, f, a) && OnCurve(p, f, b)
    requires Compressed(a) == Compressed(b)
    ensures a == b
  {
    hide Prime, Divides, BigEndian, Compressed;
    CompressedExact(a, b);
    ParityOfLast(a);
    ParityOfLast(b);
    DividesBetween(p, Y(a) * Y(a), Y(b) * Y(b), f(X(a)));
    SquareRoots(p, Y(a), Y(b));
    SamePoint(a, b);
  }

  // Keys whose Y coordinate is not reduced.

  /** As `OnCurve`, but any 32 octets may stand for Y. */
  ghost predicate Solves(p: nat, f: int -> int, pk: bytes) {
    && |pk| == 65 && pk[0] == 4
    && X(pk) < p
    && Divides(p, Y(pk) * Y(pk) - f(X(pk)))
  }

  /** 04, the X of `pk`, and `y`. */
  function WithY(pk: bytes, y: nat): (r: bytes)
    requires |pk| == 65
    ensures |r| == 65 && r[0] == 4
  {
    [4] + pk[1..33] + ToBigEndian(y, 32)
  }

  lemma WithYCoordinates(pk: bytes, y: nat)
    requires |pk| == 65 && y < Pow256(32)
    ensures WithY(pk, y)[1..33] == pk[1..33]
    ensures X(WithY(pk, y)) == X(pk) && Y(WithY(pk, y)) == y
  {
    hide BigEndian, ToBigEndian, Pow256;
    ToBigEndianValue(y, 32);
    assert WithY(pk, y)[33..65] == ToBigEndian(y, 32);
  }

  lemma OppositeSquare(p: nat, y: int, c: int)
    requires Divides(p, y * y - c)
    ensures Divides(p, (2 * p - y) * (2 * p - y) - c)
  {
    var k :| y * y - c == p * k;
    var z := 2 * p - y;
    assert z * z == y * y + p * (4 * p - 4 * y);
    assert z * z - c == p * (k + 4 * p - 4 * y);
  }

  lemma LessModulusSquare(p: nat, y: int, c: int)
    requires Divides(p, y * y - c)
    ensures Divides(p, (y - p) * (y - p) - c)
  {
    var k :| y * y - c == p * k;
    var z := y - p;
    assert z * z == y * y + p * (p - 2 * y);
    assert z * z - c == p * (k + p - 2 * y);
  }

  /** Below twice an odd prime, the solutions of one parity are a reduced one and its distance to 2p. */
  lemma SolutionsOfOneParity(p: nat, y: nat, z: nat, c: int)
    requires Prime(p) && p % 2 == 1 && y < p && z < 2 * p && y % 2 == z % 2
    requires Divides(p, y * y - c) && Divides(p, z * z - c)
    ensures z == y || z == 2 * p - y
  {
    hide Prime, Divides;
    if z < p {
      DividesBetween(p, y * y, z * z, c);
      SquareRoots(p, y, z);
    } else {
      var x: nat := z - p;
      LessModulusSquare(p, z, c);
      DividesBetween(p, y * y, x * x, c);
      SquareRoots(p, y, x);
    }
  }

  lemma SameParity(p: int, y: int)
    ensures (2 * p - y) % 2 == y % 2
  {
  }

  /** The other solution, if 32 octets can hold it. */
  lemma UnreducedPartner(p: nat, f: int -> int, a: bytes)
    requires p % 2 == 1 && OnCurve(p, f, a) && 2 * p - Y(a) < Pow256(32)
    ensures var b := WithY(a, 2 * p - Y(a));
            Solves(p, f, b) && Compressed(b) == Compressed(a) && b != a
  {
    hide Divides, BigEndian, Pow256, Compressed, ToBigEndian, X, Y, WithY;
    var y: nat := 2 * p - Y(a);
    var b := WithY(a, y);
    WithYCoordinates(a, y);
    OppositeSquare(p, Y(a), f(X(a)));
    SameParity(p, Y(a));
    ParityOfLast(a);
    ParityOfLast(b);
    CompressedExact(a, b);
  }

  /**
   Over either package's field, whose modulus is at least 2^255, a point has a second key with the same
   compression, solving the same equation, exactly when 2p - Y fits in 32 octets.
   */
  lemma UnreducedCollide(p: nat, f: int -> int, a: bytes)
    requires Prime(p) && p % 2 == 1 && Pow256(32) <= 2 * p
    requires OnCurve(p, f, a)
    ensures (exists b: bytes :: Solves(p, f, b) && Compressed(b) == Compressed(a) && b != a)
            <==> 2 * p - Y(a) < Pow256(32)
  {
    hide Prime, Divides, BigEndian, Pow256, Compressed;
    if 2 * p - Y(a) < Pow256(32) {
      UnreducedPartner(p, f, a);
    }
    forall b: bytes | Solves(p, f, b) && Compressed(b) == Compressed(a) && b != a
      ensures 2 * p - Y(a) < Pow256(32)
    {
      CompressedExact(a, b);
      ParityOfLast(a);
      ParityOfLast(b);
      BigEndianBound(b[33..65]);
      SolutionsOfOneParity(p, Y(a), Y(b), f(X(a)));
      if Y(b) == Y(a) {
        SamePoint(a, b);
        assert false;
      }
    }
  }

  // Attested values in the other form.

  /** The 26 octets before a P-256 point in its SubjectPublicKeyInfo (section 2 of RFC 5480). */
  const P256_SPKI_HEADER: bytes :=
    [0x30, 0x59, 0x30, 0x13, 0x06, 0x07, 0x2A, 0x86, 0x48, 0xCE, 0x3D, 0x02, 0x01,
     0x06, 0x08, 0x2A, 0x86, 0x48, 0xCE, 0x3D, 0x03, 0x01, 0x07, 0x03, 0x42, 0x00]

  /** X9.63 uncompressed, as far as octets show. */
  predicate PointForm(pk: bytes) {
    |pk| == 65 && pk[0] == 4
  }

  /** A P-256 key as the Android verifier attests it. */
  function Spki(point: bytes): bytes {
    P256_SPKI_HEADER + point
  }

  /** What `compress` makes of it: 25 header octets, 04 and six octets of X, under the parity of a middle octet. */
  lemma CompressedSpki(a: bytes)
    requires PointForm(a)
    ensures Compressed(Spki(a)) == [2 + a[38] % 2] + P256_SPKI_HEADER[1..] + [4] + a[1..7]
  {
    var s := Spki(a);
    assert |P256_SPKI_HEADER| == 26;
    assert s[64] == a[38];
    assert s[1..33] == P256_SPKI_HEADER[1..] + a[..7];
    assert a[..7] == [4] + a[1..7];
  }

  /** Two devices' values compress alike exactly when six octets of X and one parity agree. */
  lemma SpkiCollideExactly(a: bytes, b: bytes)
    requires PointForm(a) && PointForm(b)
    ensures Compressed(Spki(a)) == Compressed(Spki(b)) <==> a[1..7] == b[1..7] && a[38] % 2 == b[38] % 2
  {
    hide Compressed;
    CompressedSpki(a);
    CompressedSpki(b);
    var x := [2 + a[38] % 2] + P256_SPKI_HEADER[1..] + [4] + a[1..7];
    var y := [2 + b[38] % 2] + P256_SPKI_HEADER[1..] + [4] + b[1..7];
    assert x[0] == 2 + a[38] % 2 && y[0] == 2 + b[38] % 2;
    assert x[27..] == a[1..7] && y[27..] == b[1..7];
  }

  /** So it is the compression of a point `b` exactly when X of `b` is made of those octets. */
  lemma SpkiAsPoint(a: bytes, b: bytes)
    requires PointForm(a) && PointForm(b)
    ensures Compressed(Spki(a)) == Compressed(b)
            <==> b[1..33] == P256_SPKI_HEADER[1..] + [4] + a[1..7] && a[38] % 2 == b[64] % 2
  {
    CompressedSpki(a);
    var c, s := P256_SPKI_HEADER[1..] + [4] + a[1..7], Compressed(Spki(a));
    assert |c| == 32 && s[0] == 2 + a[38] % 2 && s[1..] == c;
    assert Compressed(b)[0] == 2 + b[64] % 2 && Compressed(b)[1..] == b[1..33];
  }

  /** The only X coordinate that survives in its own SubjectPublicKeyInfo. */
  function HeaderX(): (x: bytes)
    ensures |x| == 32
  {
    P256_SPKI_HEADER[1..] + [4] + P256_SPKI_HEADER[1..7]
  }

  /**
   A value attested for the point `a`, in either form, compresses to the compression of `a` exactly when it
   is the point itself, save for one X coordinate and one parity.
   */
  lemma FormDecides(a: bytes, v: bytes)
    requires PointForm(a) && (v == a || v == Spki(a))
    ensures Compressed(v) == Compressed(a) <==> PointForm(v) || (a[1..33] == HeaderX() && a[38] % 2 == a[64] % 2)
  {
    hide Compressed;
    if v == Spki(a) {
      assert v[0] == 0x30;
      SpkiAsPoint(a, a);
      var c := P256_SPKI_HEADER[1..] + [4] + a[1..7];
      assert a[1..7] == a[1..33][..6];
      assert c[..6] == P256_SPKI_HEADER[1..7] == HeaderX()[..6];
    }
  }

  // The curves of the two verifiers.

  /** The solutions of y^2 = f(x) over the field of order `p`. */
  datatype Curve = Curve(p: nat, f: int -> int)

  /** Section 2.4.2 of SEC 2. */
  const P256_MODULUS: nat := 0xFFFFFFFF00000001000000000000000000000000FFFFFFFFFFFFFFFFFFFFFFFF
  const P256_CONSTANT: nat := 0x5AC635D8AA3A93E7B3EBBD55769886BC651D06B0CC53B0F63BCE3C3E27D2604B
  const P256: Curve := Curve(P256_MODULUS, x => x * x * x - 3 * x + P256_CONSTANT)

  /** Section 2.4.1 of SEC 2. */
  const K256_MODULUS: nat := 0xFFFFFFFFFFFFFFFFFFFFFFFFFFFFFFFFFFFFFFFFFFFFFFFFFFFFFFFEFFFFFC2F
  const K256: Curve := Curve(K256_MODULUS, x => x * x * x + 7)

  /** The key octets of a native check stand for this point of its curve. */
  ghost predicate Means(curve: Curve, key: bytes, a: bytes) {
    OnCurve(curve.p, curve.f, a) && Compressed(a) == key
  }

  /** Key octets stand for one point at most. */
  lemma MeansOnePoint(curve: Curve, key: bytes, a: bytes, b: bytes)
    requires Prime(curve.p) && curve.p % 2 == 1
    requires Means(curve, key, a) && Means(curve, key, b)
    ensures a == b
  {
    hide Prime, Compressed, OnCurve;
    CompressionInjective(curve.p, curve.f, a, b);
  }

  /**
   When the value bound for the point `a` is the point or its SubjectPublicKeyInfo, the octets it compresses
   to stand for `a` exactly when `a` is a point of the curve of the scheme and the value is the point, save
   for one X coordinate and one parity.
   */
  lemma BoundKeyMeans(curve: Curve, a: bytes, v: bytes)
    requires PointForm(a) && (v == a || v == Spki(a))
    ensures Means(curve, Compressed(v), a)
            <==> OnCurve(curve.p, curve.f, a)
                 && (PointForm(v) || (a[1..33] == HeaderX() && a[38] % 2 == a[64] % 2))
  {
    hide Compressed, OnCurve, HeaderX;
    FormDecides(a, v);
  }

  /** The base points of the two curves, from the same sections. */
  const P256_X: nat := 0x6B17D1F2E12C4247F8BCE6E563A440F277037D812DEB33A0F4A13945D898C296
  const P256_Y: nat := 0x4FE342E2FE1A7F9B8EE7EB4A7C0F9E162BCE33576B315ECECBB6406837BF51F5
  const K256_X: nat := 0x79BE667EF9DCBBAC55A06295CE870B07029BFCDB2DCE28D959F2815B16F81798
  const K256_Y: nat := 0x483ADA7726A3C4655DA4FBFC0E1108A8FD17B448A68554199C47D08FFB10D4B8

  function Point(x: nat, y: nat): (pk: bytes)
    ensures PointForm(pk)
  {
    [4] + ToBigEndian(x, 32) + ToBigEndian(y, 32)
  }

  lemma WordsBelow256()
    ensures Pow256(32) == 0x1_0000000000000000_0000000000000000_0000000000000000_0000000000000000
  {
    Pow256Values();
    assert Pow256(12) == Pow256(8) * 0x1_0000_0000;
    assert Pow256(16) == Pow256(12) * 0x1_0000_0000;
    assert Pow256(20) == Pow256(16) * 0x1_0000_0000;
    assert Pow256(24) == Pow256(20) * 0x1_0000_0000;
    assert Pow256(28) == Pow256(24) * 0x1_0000_0000;
    assert Pow256(32) == Pow256(28) * 0x1_0000_0000;
  }

  lemma PointCoordinates(x: nat, y: nat)
    requires x < Pow256(32) && y < Pow256(32)
    ensures X(Point(x, y)) == x && Y(Point(x, y)) == y
  {
    hide BigEndian, ToBigEndian, Pow256;
    ToBigEndianValue(x, 32);
    ToBigEndianValue(y, 32);
    var pk := Point(x, y);
    assert pk[1..33] == ToBigEndian(x, 32) && pk[33..65] == ToBigEndian(y, 32);
  }

  lemma SolvesP256()
    ensures Divides(P256_MODULUS, P256_Y * P256_Y - (P256_X * P256_X * P256_X - 3 * P256_X + P256_CONSTANT))
  {
    var kHi := 0x12BDD1AD23DFC833DCCF5F6141D6BB4A1F365DC1430B0E600B52DD851938D2D6;
    var kLo := 0x933106A72EFBF035FDAF43963B37FD5456E90C6581A8FB7A0D8A46A3629F0458;
    var k := -(kHi * 0x1_0000000000000000000000000000000000000000000000000000000000000000 + kLo);
    assert P256_Y * P256_Y - (P256_X * P256_X * P256_X - 3 * P256_X + P256_CONSTANT) == P256_MODULUS * k;
  }

  lemma SolvesK256()
    ensures Divides(K256_MODULUS, K256_Y * K256_Y - (K256_X * K256_X * K256_X + 7))
  {
    var kHi := 0x1B888E01A06E974017A28A5B4DA436169761C9730B7AEEDF75FC60F6A33CFC77;
    var kLo := 0x92FE74711F025D590B10E57F1B3A7CE38FFC4C885C515894B45C19C9F413E5E9;
    var k := -(kHi * 0x1_0000000000000000000000000000000000000000000000000000000000000000 + kLo);
    assert K256_Y * K256_Y - (K256_X * K256_X * K256_X + 7) == K256_MODULUS * k;
  }

  lemma NotMultiple(p: nat, q: int, r: nat, k: int)
    requires 0 < r < p
    ensures p * q + r != p * k
  {
    if p * q + r == p * k {
      assert p * (k - q) == r;
      Products(p, k - q);
    }
  }

  lemma NotSolvesK256()
    ensures !Divides(K256_MODULUS, P256_Y * P256_Y - (P256_X * P256_X * P256_X + 7))
  {
    var qHi := 0x12BDD1AD1121F686CBAD68DA88E7241CBA2F01D878693D960B5DF51A407E3507;
    var qLo := 0x4BF326F7DEA5933CA1D457276A509FAA193210764B1FE36BA886087728CFB1C0;
    var q := -(qHi * 0x1_0000000000000000000000000000000000000000000000000000000000000000 + qLo);
    var r := 0x0CEF3BD2246E6AFB400A13AAA27611F5812BDF5A67021B381B1ED68D4001BF1A;
    var n := P256_Y * P256_Y - (P256_X * P256_X * P256_X + 7);
    assert n == K256_MODULUS * q + r;
    forall k: int ensures n != K256_MODULUS * k {
      NotMultiple(K256_MODULUS, q, r, k);
    }
  }

  /**
   Each base point is what its own compression stands for on its own curve; bound under the scheme of the other
   curve, the one of P-256 is in the right form and yet not what the key means.
   */
  lemma OtherCurveMeansOther()
    ensures var a, b := Point(P256_X, P256_Y), Point(K256_X, K256_Y);
            && Means(P256, Compressed(a), a) && Means(K256, Compressed(b), b)
            && !Means(K256, Compressed(a), a)
  {
    hide Compressed, Point, X, Y, Divides, Pow256;
    WordsBelow256();
    PointCoordinates(P256_X, P256_Y);
    PointCoordinates(K256_X, K256_Y);
    SolvesP256();
    SolvesK256();
    NotSolvesK256();
  }
}
