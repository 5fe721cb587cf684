/** Octets, big-endian values, and the result type shared by every decoder of the model. */
module Bytes {

  type byte = b: int | 0 <= b < 256

  type bytes = seq<byte>

  /** A SHA-256 digest; the hash itself is a parameter wherever it is used. */
  type Digest = d: bytes | |d| == 32 witness seq(32, i => 0)

  /** Two inputs that a hash function does not tell apart. */
  predicate Collision(sha256: bytes -> Digest, a: bytes, b: bytes) {
    a != b && sha256(a) == sha256(b)
  }

  /** A result that may be absent; usable with `:-`. Error contents are not modelled. */
  datatype Option<+T> = None | Some(value: T) {
    predicate IsFailure() {
      None?
    }

    function PropagateFailure<U>(): Option<U>
      requires None?
    {
      None
    }

    function Extract(): T
      requires Some?
    {
      value
    }
  }

  /** The octets of an ASCII literal. */
  function Ascii(s: string): (b: bytes)
    requires forall i | 0 <= i < |s| :: s[i] < 128 as char
    ensures |b| == |s|
  {
    seq(|s|, i requires 0 <= i < |s| => s[i] as int)
  }

  function Pow256(n: nat): (p: nat)
    ensures p > 0
  {
    if n == 0 then 1 else 256 * Pow256(n - 1)
  }

  /** The unsigned value of octets, most significant first. */
  function BigEndian(s: bytes): nat {
    if s == [] then 0 else BigEndian(s[..|s| - 1]) * 256 + s[|s| - 1]
  }

  /** The `n` low-order octets of `v`, most significant first. */
  function ToBigEndian(v: nat, n: nat): (s: bytes)
    ensures |s| == n
  {
    if n == 0 then [] else ToBigEndian(v / 256, n - 1) + [v % 256]
  }

  lemma Pow256Values()
    ensures Pow256(1) == 0x100
    ensures Pow256(2) == 0x1_0000
    ensures Pow256(3) == 0x100_0000
    ensures Pow256(4) == 0x1_0000_0000
    ensures Pow256(8) == 0x1_0000_0000_0000_0000
  {
    assert Pow256(2) == 256 * Pow256(1);
    assert Pow256(3) == 256 * Pow256(2);
    assert Pow256(4) == 256 * Pow256(3);
    assert Pow256(5) == 256 * Pow256(4);
    assert Pow256(6) == 256 * Pow256(5);
    assert Pow256(7) == 256 * Pow256(6);
  }

  lemma {:induction false} BigEndianBound(s: bytes)
    ensures BigEndian(s) < Pow256(|s|)
  {
    if s == [] {
    } else {
      BigEndianBound(s[..|s| - 1]);
    }
  }

  lemma BigEndianSnoc(s: bytes, b: byte)
    ensures BigEndian(s + [b]) == BigEndian(s) * 256 + b
  {
    assert (s + [b])[..|s|] == s;
  }

  /** Octet strings of one length are determined by their value. */
  lemma {:induction false} BigEndianInjective(a: bytes, b: bytes)
    requires |a| == |b|
    requires BigEndian(a) == BigEndian(b)
    ensures a == b
  {
    if a == [] {
    } else {
      var n := |a| - 1;
      BigEndianInjective(a[..n], b[..n]);
      assert a == a[..n] + [a[n]];
      assert b == b[..n] + [b[n]];
    }
  }

  /** The last octet and the others, as the encoder splits a value. */
  lemma ToBigEndianStep(v: nat, n: nat) returns (q: nat, r: byte)
    requires n > 0 && v < Pow256(n)
    ensures v == q * 256 + r && q < Pow256(n - 1)
    ensures ToBigEndian(v, n) == ToBigEndian(q, n - 1) + [r]
  {
    q, r := v / 256, v % 256;
    assert Pow256(n) == 256 * Pow256(n - 1);
  }

  lemma {:induction false} ToBigEndianValue(v: nat, n: nat)
    requires v < Pow256(n)
    ensures BigEndian(ToBigEndian(v, n)) == v
  {
    if n == 0 {
    } else {
      hide *;
      var q, r := ToBigEndianStep(v, n);
      ToBigEndianValue(q, n - 1);
      BigEndianSnoc(ToBigEndian(q, n - 1), r);
    }
  }

  lemma {:induction false} FromBigEndian(s: bytes)
    ensures ToBigEndian(BigEndian(s), |s|) == s
  {
    BigEndianBound(s);
    ToBigEndianValue(BigEndian(s), |s|);
    BigEndianInjective(ToBigEndian(BigEndian(s), |s|), s);
  }

  lemma Shift(b: nat, p: nat, low: nat, last: nat)
    ensures (b * p + low) * 256 + last == b * (256 * p) + (low * 256 + last)
  {
  }

  lemma Pow256Step(n: nat)
    requires n > 0
    ensures Pow256(n) == 256 * Pow256(n - 1)
  {
  }

  /** A leading octet contributes its weight. */
  lemma {:induction false} BigEndianCons(b: byte, s: bytes)
    ensures BigEndian([b] + s) == b * Pow256(|s|) + BigEndian(s)
  {
    if s == [] {
      assert [b] + s == [] + [b];
      BigEndianSnoc([], b);
    } else {
      hide BigEndian, Pow256;
      var n := |s| - 1;
      BigEndianCons(b, s[..n]);
      assert [b] + s == ([b] + s[..n]) + [s[n]];
      BigEndianSnoc([b] + s[..n], s[n]);
      assert s == s[..n] + [s[n]];
      BigEndianSnoc(s[..n], s[n]);
      Pow256Step(|s|);
      Shift(b, Pow256(n), BigEndian(s[..n]), s[n]);
    }
  }

  lemma {:induction false} Pow256Monotone(m: nat, n: nat)
    requires m <= n
    ensures Pow256(m) <= Pow256(n)
    decreases n - m
  {
    if m == n {
    } else {
      Pow256Monotone(m + 1, n);
    }
  }

  function Zeros(n: nat): (z: bytes)
    ensures |z| == n
  {
    seq(n, i => 0)
  }

  // Lists that a recursive decoder may or may not find, continued on the left by a loop.

  /** `pre` before the list, if there is one. */
  function Prepend<T>(pre: seq<T>, o: Option<seq<T>>): Option<seq<T>> {
    if o.Some? then Some(pre + o.value) else None
  }

  lemma PrependNothing<T>(o: Option<seq<T>>)
    ensures Prepend([], o) == o
  {
    if o.Some? {
      assert [] + o.value == o.value;
    }
  }

  lemma PrependTwice<T>(x: seq<T>, y: seq<T>, o: Option<seq<T>>)
    ensures Prepend(x, Prepend(y, o)) == Prepend(x + y, o)
  {
    if o.Some? {
      assert x + (y + o.value) == x + y + o.value;
    }
  }

  /** The same for a list with the input left over after it. */
  function PrependTo<T>(pre: seq<T>, o: Option<(seq<T>, bytes)>): Option<(seq<T>, bytes)> {
    if o.Some? then Some((pre + o.value.0, o.value.1)) else None
  }

  lemma PrependToNothing<T>(o: Option<(seq<T>, bytes)>)
    ensures PrependTo([], o) == o
  {
    if o.Some? {
      assert [] + o.value.0 == o.value.0;
    }
  }

  lemma PrependToTwice<T>(x: seq<T>, y: seq<T>, o: Option<(seq<T>, bytes)>)
    ensures PrependTo(x, PrependTo(y, o)) == PrependTo(x + y, o)
  {
    if o.Some? {
      assert x + (y + o.value.0) == x + y + o.value.0;
    }
  }
}
