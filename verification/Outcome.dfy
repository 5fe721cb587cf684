/** BCS: length-prefixed encoding with canonical ULEB128 lengths and little-endian integers. */
module Bcs {
  import opened Bytes

  /** Longest sequence the Rust `bcs` crate encodes or decodes. */
  const MAX_SEQUENCE: nat := 0x7FFF_FFFF

  type u64 = n: nat | n < 0x1_0000_0000_0000_0000

  function Uleb(n: nat): (s: bytes)
    ensures |s| > 0
  {
    if n < 128 then [n] else [n % 128 + 128] + Uleb(n / 128)
  }

  /** A canonical ULEB128 number, whose last digit is not a needless zero, and what follows it. */
  function ParseUleb(s: bytes): (r: Option<(nat, bytes)>)
    ensures r.Some? ==> |r.value.1| < |s|
  {
    if s == [] then None
    else if s[0] < 128 then Some((s[0], s[1..]))
    else
      var (high, rest) :- ParseUleb(s[1..]);
      if high == 0 then None else Some((s[0] - 128 + 128 * high, rest))
  }

  lemma {:induction false} UlebParses(n: nat, rest: bytes)
    ensures ParseUleb(Uleb(n) + rest) == Some((n, rest))
  {
    var s := Uleb(n) + rest;
    if n < 128 {
      assert s[1..] == rest;
    } else {
      UlebParses(n / 128, rest);
      assert s[1..] == Uleb(n / 128) + rest;
    }
  }

  lemma {:induction false} UlebCanonical(s: bytes)
    requires ParseUleb(s).Some?
    ensures s == Uleb(ParseUleb(s).value.0) + ParseUleb(s).value.1
  {
    assert s == [s[0]] + s[1..];
    if s[0] < 128 {
    } else {
      UlebCanonical(s[1..]);
      var (high, rest) := ParseUleb(s[1..]).value;
      var n := ParseUleb(s).value.0;
      assert n / 128 == high && n % 128 + 128 == s[0];
      assert [s[0]] + (Uleb(high) + rest) == Uleb(n) + rest;
    }
  }

  lemma ParseUlebExact(s: bytes, n: nat, rest: bytes)
    ensures ParseUleb(s) == Some((n, rest)) <==> s == Uleb(n) + rest
  {
    hide ParseUleb, Uleb;
    UlebParses(n, rest);
    if ParseUleb(s) == Some((n, rest)) {
      UlebCanonical(s);
    }
  }

  function Vector(b: bytes): bytes {
    Uleb(|b|) + b
  }

  function ParseVector(s: bytes): (r: Option<(bytes, bytes)>)
    ensures r.Some? ==> |r.value.1| < |s|
  {
    var (n, rest) :- ParseUleb(s);
    if n > |rest| then None else Some((rest[..n], rest[n..]))
  }

  lemma ParseVectorExact(s: bytes, b: bytes, rest: bytes)
    ensures ParseVector(s) == Some((b, rest)) <==> s == Vector(b) + rest
  {
    ParseUlebExact(s, |b|, b + rest);
    assert Uleb(|b|) + (b + rest) == Vector(b) + rest;
    if ParseVector(s) == Some((b, rest)) {
      var t := ParseUleb(s).value.1;
      assert t == b + rest;
    }
    if s == Vector(b) + rest {
      assert (b + rest)[..|b|] == b && (b + rest)[|b|..] == rest;
    }
  }

  function LittleEndian(v: nat, n: nat): (s: bytes)
    ensures |s| == n
  {
    if n == 0 then [] else [v % 256] + LittleEndian(v / 256, n - 1)
  }

  function LittleEndianValue(s: bytes): nat {
    if s == [] then 0 else s[0] + 256 * LittleEndianValue(s[1..])
  }

  lemma {:induction false} LittleEndianExact(s: bytes)
    ensures LittleEndianValue(s) < Pow256(|s|)
    ensures LittleEndian(LittleEndianValue(s), |s|) == s
  {
    if s == [] {
    } else {
      LittleEndianExact(s[1..]);
      assert s == [s[0]] + s[1..];
    }
  }

  lemma {:induction false} ValueOfLittleEndian(v: nat, n: nat)
    requires v < Pow256(n)
    ensures LittleEndianValue(LittleEndian(v, n)) == v
  {
    if n == 0 {
    } else {
      ValueOfLittleEndian(v / 256, n - 1);
      assert LittleEndian(v, n)[1..] == LittleEndian(v / 256, n - 1);
    }
  }

  function Word(v: u64): (w: bytes)
    ensures |w| == 8
  {
    LittleEndian(v, 8)
  }

  lemma WordValue(v: u64)
    ensures LittleEndianValue(Word(v)) == v
  {
    Pow256Values();
    ValueOfLittleEndian(v, 8);
  }

  lemma ShortVector(b: bytes)
    requires |b| < 128
    ensures Vector(b) == [|b|] + b
  {
  }

  function ParseWord(s: bytes): Option<(u64, bytes)> {
    if |s| < 8 then None
    else
      assert LittleEndianValue(s[..8]) < 0x1_0000_0000_0000_0000 by {
        LittleEndianExact(s[..8]);
        Pow256Values();
      }
      Some((LittleEndianValue(s[..8]), s[8..]))
  }

  lemma ParseWordExact(s: bytes, v: u64, rest: bytes)
    ensures ParseWord(s) == Some((v, rest)) <==> s == Word(v) + rest
  {
    Pow256Values();
    ValueOfLittleEndian(v, 8);
    if |s| >= 8 {
      LittleEndianExact(s[..8]);
      assert s == s[..8] + s[8..];
    }
  }
}

/** The verifiers' common result, and its BCS form. */
module Outcomes {
  import opened Bytes
  import opened Bcs

  datatype Outcome = Outcome(
    source: bytes,
    attestedValue: bytes,
    challenge: bytes,
    timestampMs: u64,
    detailHash: bytes)

  /** Field by field, in declaration order. */
  function Encoding(o: Outcome, rest: bytes): bytes {
    Vector(o.source) + (Vector(o.attestedValue) + (Vector(o.challenge)
    + (Word(o.timestampMs) + (Vector(o.detailHash) + rest))))
  }

  function Parse(s: bytes): Option<(Outcome, bytes)> {
    var (source, s1) :- ParseVector(s);
    var (attestedValue, s2) :- ParseVector(s1);
    var (challenge, s3) :- ParseVector(s2);
    var (timestampMs, s4) :- ParseWord(s3);
    var (detailHash, s5) :- ParseVector(s4);
    Some((Outcome(source, attestedValue, challenge, timestampMs, detailHash), s5))
  }

  predicate Encodable(o: Outcome) {
    && |o.source| <= MAX_SEQUENCE && |o.attestedValue| <= MAX_SEQUENCE
    && |o.challenge| <= MAX_SEQUENCE && |o.detailHash| <= MAX_SEQUENCE
  }

  /** `to_bcs`, which refuses fields that are too long. */
  function ToBcs(o: Outcome): Option<bytes> {
    if Encodable(o) then Some(Encoding(o, [])) else None
  }

  /** `from_bcs`: the whole input, with a source that is text by the given test. */
  function FromBcs(isText: bytes -> bool, s: bytes): Option<Outcome> {
    var (o, rest) :- Parse(s);
    if rest == [] && Encodable(o) && isText(o.source) then Some(o) else None
  }

  lemma ParseExact(s: bytes, o: Outcome, rest: bytes)
    ensures Parse(s) == Some((o, rest)) <==> s == Encoding(o, rest)
  {
    hide ParseVector, ParseWord, Vector, Word;
    var t4 := Vector(o.detailHash) + rest;
    var t3 := Word(o.timestampMs) + t4;
    var t2 := Vector(o.challenge) + t3;
    var t1 := Vector(o.attestedValue) + t2;
    ParseVectorExact(s, o.source, t1);
    ParseVectorExact(t1, o.attestedValue, t2);
    ParseVectorExact(t2, o.challenge, t3);
    ParseWordExact(t3, o.timestampMs, t4);
    ParseVectorExact(t4, o.detailHash, rest);
    if Parse(s) == Some((o, rest)) {
      var s1 := ParseVector(s).value.1;
      var s2 := ParseVector(s1).value.1;
      var s3 := ParseVector(s2).value.1;
      var s4 := ParseWord(s3).value.1;
      ParseVectorExact(s4, o.detailHash, rest);
      ParseWordExact(s3, o.timestampMs, s4);
      ParseVectorExact(s2, o.challenge, s3);
      ParseVectorExact(s1, o.attestedValue, s2);
      ParseVectorExact(s, o.source, s1);
    }
  }

  /** One encoding per outcome and one outcome per encoding: decoding is exactly the inverse. */
  lemma BcsExact(isText: bytes -> bool, s: bytes, o: Outcome)
    ensures FromBcs(isText, s) == Some(o) <==> isText(o.source) && ToBcs(o) == Some(s)
  {
    hide Parse, Encoding;
    ParseExact(s, o, []);
    assert Parse(s).Some? && Parse(s).value.1 == [] ==> Parse(s) == Some((Parse(s).value.0, []));
  }

  lemma Continues(o: Outcome, more: bytes)
    ensures Encoding(o, more) == Encoding(o, []) + more
  {
    hide Vector, Word;
    var pre := Vector(o.source) + Vector(o.attestedValue) + Vector(o.challenge) + Word(o.timestampMs)
            + Vector(o.detailHash);
    assert Encoding(o, more) == pre + more;
    assert Encoding(o, []) == pre;
  }

  /** No strict prefix and no extension of an encoding is an encoding. */
  lemma BcsPrefixFree(isText: bytes -> bool, o: Outcome, s: bytes, more: bytes)
    requires ToBcs(o) == Some(s) && more != []
    ensures FromBcs(isText, s + more) == None
    ensures forall n | 0 <= n < |s| :: FromBcs(isText, s[..n]) == None
  {
    hide Parse, Encoding;
    Continues(o, more);
    ParseExact(s + more, o, more);
    ParseExact(s, o, []);
    forall n | 0 <= n < |s| ensures FromBcs(isText, s[..n]) == None {
      var r := FromBcs(isText, s[..n]);
      if r.Some? {
        BcsExact(isText, s[..n], r.value);
        Continues(r.value, s[n..]);
        assert s == s[..n] + s[n..];
        ParseExact(s, r.value, s[n..]);
      }
    }
  }

  lemma Flatten(a: bytes, b: bytes, c: bytes, w: bytes, d: bytes)
    ensures a + (b + (c + (w + (d + [])))) == a + b + c + w + d
  {
  }

  /** BCS of an outcome, octet by octet, for fields of fewer than 128 octets; the time is little-endian. */
  lemma OutcomeLayout(o: Outcome) returns (w: bytes)
    requires |o.source| < 128 && |o.attestedValue| < 128 && |o.challenge| < 128 && |o.detailHash| < 128
    ensures |w| == 8 && LittleEndianValue(w) == o.timestampMs
    ensures ToBcs(o) == Some(([|o.source|] + o.source) + ([|o.attestedValue|] + o.attestedValue)
                             + ([|o.challenge|] + o.challenge) + w + ([|o.detailHash|] + o.detailHash))
  {
    hide LittleEndianValue, Word, Vector;
    w := Word(o.timestampMs);
    WordValue(o.timestampMs);
    ShortVector(o.source);
    ShortVector(o.attestedValue);
    ShortVector(o.challenge);
    ShortVector(o.detailHash);
    Flatten(Vector(o.source), Vector(o.attestedValue), Vector(o.challenge), w, Vector(o.detailHash));
  }

  /** Fields of up to 2^31 - 1 octets are encoded, and no longer ones. */
  lemma FieldLimit(o: Outcome)
    ensures ToBcs(o).Some? <==>
              && |o.source| < 0x8000_0000 && |o.attestedValue| < 0x8000_0000
              && |o.challenge| < 0x8000_0000 && |o.detailHash| < 0x8000_0000
  {
  }
}
