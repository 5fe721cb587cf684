/**
 The few strict-DER primitives the decoders take from the `der` crate (sections 8.1 to 8.4 and 10.1
 of X.690), as functions from an input to a value and the octets left over, and the reader object
 whose methods advance over the input in place.
 */
module Der {
  import opened Bytes
  import Tlv

  /** Longest input and longest content the `der` crate handles: 2^28 - 1 octets. */
  const MAX_LENGTH: nat := 0xFFF_FFFF

  const BOOLEAN: byte := 0x01
  const INTEGER: byte := 0x02
  const OCTET_STRING: byte := 0x04
  const ENUMERATED: byte := 0x0A
  const SEQUENCE: byte := 0x30
  const SET: byte := 0x31

  /** Strict length octets: at most `MAX_LENGTH`, and in the shortest form only. */
  function StrictLength(s: bytes): (r: Option<(nat, nat)>)
    ensures r.Some? ==> 0 < r.value.1 <= |s| && r.value.0 <= MAX_LENGTH
  {
    var (v, k) :- Tlv.LengthOctets(s);
    if v > MAX_LENGTH || (k > 1 && (v < 128 || k != 1 + Tlv.OctetsNeeded(v))) then None
    else Some((v, k))
  }

  /**
   An identifier octet, its strict length, and what follows. Which identifier octets the crate knows
   is not modelled: every caller compares the octet with the one it expects.
   */
  function TagAndLength(s: bytes): (r: Option<(byte, nat, bytes)>)
    ensures r.Some? ==> |r.value.2| < |s| && r.value.1 <= MAX_LENGTH
  {
    if s == [] then None
    else
      var (len, k) :- StrictLength(s[1..]);
      Some((s[0], len, s[1 + k..]))
  }

  /** The content of one element with identifier octet `tag`, and what follows it. */
  function Element(tag: byte, s: bytes): (r: Option<(bytes, bytes)>)
    ensures r.Some? ==> |r.value.0| + |r.value.1| < |s|
  {
    var (t, len, rest) :- TagAndLength(s);
    if t != tag || len > |rest| then None else Some((rest[..len], rest[len..]))
  }

  /** The encoding of one element whose content is at most `MAX_LENGTH` octets long. */
  function EncodeElement(tag: byte, content: bytes): bytes
  {
    [tag] + Tlv.EncodeLength(|content|) + content
  }

  lemma ShortEncoding(tag: byte, content: bytes)
    requires |content| < 128
    ensures EncodeElement(tag, content) == [tag, |content|] + content
  {
  }

  /** Strict lengths have one encoding each: reading inverts the shortest form, and only that. */
  lemma StrictLengthRoundTrip(v: nat, rest: bytes)
    requires v <= MAX_LENGTH
    ensures StrictLength(Tlv.EncodeLength(v) + rest) == Some((v, |Tlv.EncodeLength(v)|))
  {
    Tlv.LengthRoundTrip(v, rest);
  }

  lemma StrictLengthCanonical(s: bytes)
    requires StrictLength(s).Some?
    ensures s[..StrictLength(s).value.1] == Tlv.EncodeLength(StrictLength(s).value.0)
  {
    hide BigEndian, ToBigEndian;
    var (v, k) := StrictLength(s).value;
    if k > 1 {
      FromBigEndian(s[1..k]);
      assert s[..k] == [s[0]] + s[1..k];
    }
  }

  lemma ElementRoundTrip(tag: byte, content: bytes, rest: bytes)
    requires |content| <= MAX_LENGTH
    ensures Element(tag, EncodeElement(tag, content) + rest) == Some((content, rest))
  {
    var l := Tlv.EncodeLength(|content|);
    var s := EncodeElement(tag, content) + rest;
    StrictLengthRoundTrip(|content|, content + rest);
    assert s == [tag] + (l + (content + rest));
    assert s[1..] == l + (content + rest);
    assert s[1 + |l|..] == content + rest;
  }

  /** Elements have one encoding each: whatever is accepted is the encoding of what is returned. */
  lemma ElementCanonical(tag: byte, s: bytes)
    requires Element(tag, s).Some?
    ensures var (content, rest) := Element(tag, s).value;
            |content| <= MAX_LENGTH && s == EncodeElement(tag, content) + rest
  {
    hide StrictLength, Tlv.EncodeLength;
    var (content, rest) := Element(tag, s).value;
    StrictLengthCanonical(s[1..]);
    var k := StrictLength(s[1..]).value.1;
    assert s == [s[0]] + s[1..][..k] + s[1 + k..];
    assert s[1 + k..] == content + rest;
  }

  // INTEGER (section 8.3): two's complement, fewest octets.

  /** The value of two's-complement octets; the empty string counts as zero. */
  function TwosComplement(s: bytes): int {
    if s == [] then 0
    else if |s| == 1 then if s[0] < 128 then s[0] else s[0] - 256
    else TwosComplement(s[..|s| - 1]) * 256 + s[|s| - 1]
  }

  /** The first nine bits of a DER integer are neither all zero nor all one. */
  predicate Minimal(s: bytes) {
    |s| == 1 || (|s| > 1 && !(s[0] == 0 && s[1] < 128) && !(s[0] == 255 && s[1] >= 128))
  }

  function EncodeInt(v: int): (s: bytes)
    ensures |s| > 0
    decreases if v < 0 then -v else v
  {
    if -128 <= v < 128 then [v % 256] else EncodeInt(v / 256) + [v % 256]
  }

  /** Half the range of `n` octets. */
  function HalfRange(n: nat): int
    requires n > 0
  {
    128 * Pow256(n - 1)
  }

  lemma TwosComplementSnoc(s: bytes, b: byte)
    requires s != []
    ensures TwosComplement(s + [b]) == TwosComplement(s) * 256 + b
  {
    assert (s + [b])[..|s|] == s;
  }

  /** The recursive reading is the unsigned value, less 256^n when the sign bit is set. */
  lemma {:induction false} TwosComplementValue(s: bytes)
    requires s != []
    ensures TwosComplement(s) == BigEndian(s) - if s[0] >= 128 then Pow256(|s|) else 0
  {
    if |s| == 1 {
      assert s[..0] == [];
    } else {
      TwosComplementValue(s[..|s| - 1]);
    }
  }

  lemma {:induction false} EncodeIntRoundTrip(v: int)
    ensures TwosComplement(EncodeInt(v)) == v
    ensures Minimal(EncodeInt(v))
    decreases if v < 0 then -v else v
  {
    if -128 <= v < 128 {
    } else {
      EncodeIntRoundTrip(v / 256);
      TwosComplementSnoc(EncodeInt(v / 256), v % 256);
      if -128 <= v / 256 < 128 {
        assert EncodeInt(v / 256) == [v / 256 % 256];
      } else {
        assert EncodeInt(v)[..2] == EncodeInt(v / 256)[..2];
        assert EncodeInt(v)[0] == EncodeInt(v / 256)[0] && EncodeInt(v)[1] == EncodeInt(v / 256)[1];
      }
    }
  }

  /** `n` octets suffice exactly for the values in the signed `n`-octet range. */
  lemma {:induction false} EncodeIntLength(v: int, n: nat)
    requires n > 0
    ensures |EncodeInt(v)| <= n <==> -HalfRange(n) <= v < HalfRange(n)
    decreases n
  {
    if n == 1 {
    } else if -128 <= v < 128 {
      Pow256Monotone(0, n - 1);
    } else {
      EncodeIntLength(v / 256, n - 1);
      assert HalfRange(n) == 256 * HalfRange(n - 1);
    }
  }

  lemma LongMeansLarge(s: bytes)
    requires |s| > 1
    requires EncodeInt(TwosComplement(s)) == s
    ensures !(-128 <= TwosComplement(s) < 128)
  {
  }

  /** A minimal string is the encoding of its value, so a value has one DER integer. */
  lemma {:induction false} MinimalIsEncoding(s: bytes)
    requires Minimal(s)
    ensures EncodeInt(TwosComplement(s)) == s
  {
    if |s| <= 1 {
    } else {
      var init, last := s[..|s| - 1], s[|s| - 1];
      assert s == init + [last];
      if |s| == 2 {
        assert init == [s[0]];
        var v := TwosComplement(s);
        assert v == TwosComplement(init) * 256 + last;
        assert TwosComplement(init) != 0 || last >= 128;
        assert TwosComplement(init) != -1 || last < 128;
        assert v / 256 == TwosComplement(init) && v % 256 == last;
        assert EncodeInt(TwosComplement(init)) == init;
      } else {
        assert Minimal(init);
        MinimalIsEncoding(init);
        LongMeansLarge(init);
        var v := TwosComplement(s);
        assert v / 256 == TwosComplement(init) && v % 256 == last;
      }
    }
  }

  /** The octets of a minimal DER INTEGER, and what follows it. */
  function IntegerOctets(s: bytes): (r: Option<(bytes, bytes)>)
    ensures r.Some? ==> Minimal(r.value.0) && |r.value.1| < |s|
  {
    var (body, rest) :- Element(INTEGER, s);
    if Minimal(body) then Some((body, rest)) else None
  }

  function EncodeInteger(v: int): bytes
  {
    EncodeElement(INTEGER, EncodeInt(v))
  }

  /** An INTEGER of at most `n` octets by value, and what follows it. */
  function SignedInteger(n: nat, s: bytes): (r: Option<(int, bytes)>)
    ensures r.Some? ==> |r.value.1| < |s|
  {
    var (body, rest) :- IntegerOctets(s);
    if |body| <= n then Some((TwosComplement(body), rest)) else None
  }

  /** `decode_u64`: an INTEGER of at most eight octets with the sign bit clear. */
  function UnsignedInteger(s: bytes): (r: Option<(nat, bytes)>)
    ensures r.Some? ==> |r.value.1| < |s|
  {
    var (body, rest) :- IntegerOctets(s);
    if body[0] >= 128 || |body| > 8 then None
    else
      assert TwosComplement(body) >= 0 by {
        TwosComplementValue(body);
      }
      Some((TwosComplement(body), rest))
  }

  /** `decode_enumerated`: at most four content octets, not required to be minimal or even present. */
  function Enumerated(s: bytes): (r: Option<(int, bytes)>)
    ensures r.Some? ==> |r.value.1| < |s|
  {
    var (body, rest) :- Element(ENUMERATED, s);
    if |body| <= 4 then Some((TwosComplement(body), rest)) else None
  }

  function Boolean(s: bytes): (r: Option<(bool, bytes)>)
    ensures r.Some? ==> |r.value.1| < |s|
  {
    var (body, rest) :- Element(BOOLEAN, s);
    if body == [0] then Some((false, rest))
    else if body == [255] then Some((true, rest))
    else None
  }

  /** Among all DER integers, a decoder of width `n` accepts exactly those in the signed range. */
  lemma SignedIntegerExact(n: nat, v: int, rest: bytes)
    requires n > 0 && |EncodeInt(v)| <= MAX_LENGTH
    ensures SignedInteger(n, EncodeInteger(v) + rest)
         == if -HalfRange(n) <= v < HalfRange(n) then Some((v, rest)) else None
  {
    ElementRoundTrip(INTEGER, EncodeInt(v), rest);
    EncodeIntRoundTrip(v);
    EncodeIntLength(v, n);
  }

  /** `decode_u64` accepts exactly 0 to 2^63 - 1: the upper half of the unsigned range is refused. */
  lemma UnsignedIntegerExact(v: int, rest: bytes)
    requires |EncodeInt(v)| <= MAX_LENGTH
    ensures UnsignedInteger(EncodeInteger(v) + rest)
         == if 0 <= v < 0x8000_0000_0000_0000 then Some((v, rest)) else None
  {
    var s := EncodeInt(v);
    ElementRoundTrip(INTEGER, s, rest);
    EncodeIntRoundTrip(v);
    EncodeIntLength(v, 8);
    TwosComplementValue(s);
    BigEndianBound(s);
    Pow256Values();
    assert HalfRange(8) == 0x8000_0000_0000_0000;
    if s[0] >= 128 {
      assert v < 0;
    } else {
      assert v >= 0;
    }
  }

  /** Whatever INTEGER is accepted re-encodes to the octets read. */
  lemma SignedIntegerCanonical(n: nat, s: bytes)
    requires SignedInteger(n, s).Some?
    ensures var (v, rest) := SignedInteger(n, s).value;
            |EncodeInt(v)| <= MAX_LENGTH && s == EncodeInteger(v) + rest
  {
    ElementCanonical(INTEGER, s);
    MinimalIsEncoding(Element(INTEGER, s).value.0);
  }

  // What is accepted, octet by octet.

  lemma ShortElement(tag: byte, s: bytes, content: bytes, rest: bytes)
    requires |content| < 128
    ensures Element(tag, s) == Some((content, rest)) <==> s == [tag, |content|] + content + rest
  {
    hide Element;
    ShortEncoding(tag, content);
    ElementRoundTrip(tag, content, rest);
    if Element(tag, s) == Some((content, rest)) {
      ElementCanonical(tag, s);
    }
  }

  /** Contents of up to 2^28 - 1 octets are read, and no longer ones. */
  lemma LengthLimit(tag: byte, content: bytes, rest: bytes)
    requires |content| < 0x1_0000_0000
    ensures Element(tag, EncodeElement(tag, content) + rest).Some? <==> |content| <= 268_435_455
  {
    hide Tlv.LengthOctets, Tlv.EncodeLength;
    if |content| <= 268_435_455 {
      ElementRoundTrip(tag, content, rest);
    } else {
      var l := Tlv.EncodeLength(|content|);
      var s := EncodeElement(tag, content) + rest;
      assert s[1..] == l + (content + rest);
      Tlv.LengthRoundTrip(|content|, content + rest);
    }
  }

  /** The two spellings of a BOOLEAN, and no others. */
  lemma BooleanExactly(s: bytes, b: bool, rest: bytes)
    ensures Boolean(s) == Some((b, rest)) <==> s == [1, 1, if b then 255 else 0] + rest
  {
    hide Element;
    var x := if b then 255 else 0;
    ShortElement(BOOLEAN, s, [x], rest);
    assert [1, 1] + [x] == [1, 1, x];
  }

  /** What octets stand for in two's complement, in terms of their unsigned value. */
  function SignedValue(s: bytes): int {
    if s == [] then 0 else BigEndian(s) - if s[0] >= 128 then Pow256(|s|) else 0
  }

  lemma SignedValueIs(s: bytes)
    ensures TwosComplement(s) == SignedValue(s)
  {
    if s != [] {
      TwosComplementValue(s);
    }
  }

  /** ENUMERATED: identifier 10, at most four content octets, whatever they are. */
  lemma EnumeratedExactly(s: bytes, v: int, rest: bytes)
    ensures Enumerated(s) == Some((v, rest)) <==>
              exists body: bytes :: |body| <= 4 && s == [10, |body|] + body + rest && v == SignedValue(body)
  {
    hide Element, SignedValue, TwosComplement;
    forall body: bytes | |body| <= 4
      ensures Element(ENUMERATED, s) == Some((body, rest)) <==> s == [10, |body|] + body + rest
      ensures TwosComplement(body) == SignedValue(body)
    {
      ShortElement(ENUMERATED, s, body, rest);
      SignedValueIs(body);
    }
    if Enumerated(s) == Some((v, rest)) {
      var body := Element(ENUMERATED, s).value.0;
      assert s == [10, |body|] + body + rest && v == SignedValue(body);
    }
  }

  /** The first nine bits differ, so that no shorter octets would do. */
  predicate Fewest(body: bytes) {
    |body| >= 1 && (|body| >= 2 ==> !(body[0] == 0 && body[1] < 128) && !(body[0] == 255 && body[1] >= 128))
  }

  /** INTEGER by a decoder of up to eight octets: identifier 2, fewest octets, and not more than it takes. */
  lemma SignedExactly(n: nat, s: bytes, v: int, rest: bytes)
    requires n <= 8
    ensures SignedInteger(n, s) == Some((v, rest)) <==>
              exists body: bytes ::
                |body| <= n && Fewest(body) && s == [2, |body|] + body + rest && v == SignedValue(body)
  {
    hide Element, SignedValue, TwosComplement;
    forall body: bytes | |body| <= n
      ensures Element(INTEGER, s) == Some((body, rest)) <==> s == [2, |body|] + body + rest
      ensures TwosComplement(body) == SignedValue(body) && (Minimal(body) <==> Fewest(body))
    {
      ShortElement(INTEGER, s, body, rest);
      SignedValueIs(body);
    }
    if SignedInteger(n, s) == Some((v, rest)) {
      var body := Element(INTEGER, s).value.0;
      assert Fewest(body) && s == [2, |body|] + body + rest && v == SignedValue(body);
    }
  }

  /** The unsigned decoder: the same, of at most eight octets, with the top bit clear. */
  lemma UnsignedExactly(s: bytes, v: nat, rest: bytes)
    ensures UnsignedInteger(s) == Some((v, rest)) <==>
              exists body: bytes ::
                |body| <= 8 && Fewest(body) && body[0] < 128 && s == [2, |body|] + body + rest && v == BigEndian(body)
  {
    hide Element, TwosComplement, BigEndian;
    forall body: bytes | |body| <= 8
      ensures Element(INTEGER, s) == Some((body, rest)) <==> s == [2, |body|] + body + rest
      ensures Fewest(body) && body[0] < 128 ==> TwosComplement(body) == BigEndian(body)
      ensures Minimal(body) <==> Fewest(body)
    {
      ShortElement(INTEGER, s, body, rest);
      SignedValueIs(body);
    }
    if UnsignedInteger(s) == Some((v, rest)) {
      var body := Element(INTEGER, s).value.0;
      assert Fewest(body) && s == [2, |body|] + body + rest && v == BigEndian(body);
    }
  }

  // The fixed-width decoders fill a zero or all-ones buffer from the right.

  /** `from_be_bytes` at a signed type: the upper half of the range stands for negative values. */
  function WordValue(s: bytes): int {
    if BigEndian(s) < Pow256(|s|) / 2 then BigEndian(s) else BigEndian(s) - Pow256(|s|)
  }

  lemma {:induction false} PadZero(k: nat, s: bytes)
    ensures BigEndian(seq(k, i => 0) + s) == BigEndian(s)
  {
    if k == 0 {
      assert seq(k, i => 0) + s == s;
    } else {
      var pad := seq(k - 1, i => 0);
      PadZero(k - 1, s);
      assert seq(k, i => 0) + s == [0] + (pad + s);
      BigEndianCons(0, pad + s);
    }
  }

  lemma {:induction false} PadOnes(k: nat, s: bytes)
    ensures BigEndian(seq(k, i => 255) + s) == BigEndian(s) + Pow256(k + |s|) - Pow256(|s|)
  {
    if k == 0 {
      assert seq(k, i => 255) + s == s;
    } else {
      var pad := seq(k - 1, i => 255);
      PadOnes(k - 1, s);
      assert seq(k, i => 255) + s == [255] + (pad + s);
      BigEndianCons(255, pad + s);
      assert |pad + s| == k - 1 + |s|;
    }
  }

  /** `n - |s|` copies of the sign of `s`. */
  function SignFill(s: bytes, n: nat): bytes
    requires |s| <= n
  {
    seq(n - |s|, i => if s != [] && s[0] >= 128 then 255 else 0)
  }

  lemma SignFillValue(s: bytes, n: nat)
    requires |s| <= n
    ensures BigEndian(SignFill(s, n) + s)
         == BigEndian(s) + if s != [] && s[0] >= 128 then Pow256(n) - Pow256(|s|) else 0
  {
    if s != [] && s[0] >= 128 {
      assert SignFill(s, n) == seq(n - |s|, i => 255);
      PadOnes(n - |s|, s);
    } else {
      assert SignFill(s, n) == seq(n - |s|, i => 0);
      PadZero(n - |s|, s);
    }
  }

  lemma SignBit(b: byte, p: nat, r: nat)
    requires r < p
    ensures b >= 128 ==> b * p + r >= 128 * p
    ensures b < 128 ==> b * p + r < 128 * p
  {
    if b >= 128 {
      assert b * p >= 128 * p;
    } else {
      assert b * p <= 127 * p;
    }
  }

  /** The sign bit says in which half of the unsigned range a string lies. */
  lemma SignHalf(s: bytes)
    requires s != []
    ensures s[0] >= 128 <==> BigEndian(s) >= HalfRange(|s|)
  {
    assert s == [s[0]] + s[1..];
    BigEndianCons(s[0], s[1..]);
    BigEndianBound(s[1..]);
    SignBit(s[0], Pow256(|s| - 1), BigEndian(s[1..]));
  }

  /** Sign extension of at most `n` octets to `n` octets keeps the two's-complement value. */
  lemma SignExtension(s: bytes, n: nat)
    requires |s| <= n && n > 0
    ensures WordValue(SignFill(s, n) + s) == TwosComplement(s)
  {
    SignFillValue(s, n);
    assert |SignFill(s, n) + s| == n;
    assert Pow256(n) == 2 * HalfRange(n);
    if s != [] {
      TwosComplementValue(s);
      SignHalf(s);
      assert Pow256(|s|) == 2 * HalfRange(|s|);
      Pow256Monotone(|s|, n);
    }
  }

  /** The buffer fill of `decode_i32`, `decode_enumerated` and `decode_i64_from_int`. */
  method SignExtend(body: bytes, width: nat) returns (v: int)
    requires |body| <= width && width > 0
    ensures v == TwosComplement(body)
  {
    var negative := if body != [] then body[0] >= 128 else false;
    var buf := new byte[width](_ => 0);
    if negative {
      buf := new byte[width](_ => 255);
    }
    var offset := width - |body|;
    forall i | offset <= i < width {
      buf[i] := body[i - offset];
    }
    assert buf[..] == SignFill(body, width) + body;
    SignExtension(body, width);
    return WordValue(buf[..]);
  }

  /** `SliceReader`: a position that the decoding methods advance over a fixed input. */
  class SliceReader {
    const data: bytes
    var pos: nat

    ghost predicate Valid()
      reads this
    {
      pos <= |data|
    }

    /** The octets not yet read. */
    ghost function Rest(): bytes
      reads this
      requires Valid()
    {
      data[pos..]
    }

    constructor (data: bytes)
      ensures Valid() && Rest() == data
    {
      this.data := data;
      pos := 0;
    }

    predicate IsFinished()
      reads this
    {
      pos == |data|
    }

    /** `Header::decode`: an identifier octet and a strict length. */
    method DecodeHeader() returns (r: Option<(byte, nat)>)
      requires Valid()
      modifies this
      ensures Valid()
      ensures match TagAndLength(old(Rest()))
              case None => r == None
              case Some((tag, len, rest)) => r == Some((tag, len)) && Rest() == rest
    {
      if pos == |data| {
        return None;
      }
      assert data[pos..][1..] == data[pos + 1..];
      var tag := data[pos];
      var len := Tlv.ReadLength(data, pos + 1);
      if len.None? {
        return None;
      }
      var (v, k) := len.value;
      if v > MAX_LENGTH || (k > 1 && (v < 128 || k != 1 + Tlv.OctetsNeeded(v))) {
        return None;
      }
      assert data[pos..][1 + k..] == data[pos + 1 + k..];
      pos := pos + 1 + k;
      return Some((tag, v));
    }

    method ReadSlice(n: nat) returns (r: Option<bytes>)
      requires Valid()
      modifies this
      ensures Valid()
      ensures if n <= |old(Rest())| then r == Some(old(Rest())[..n]) && Rest() == old(Rest())[n..] else r == None
    {
      if pos + n > |data| {
        return None;
      }
      r := Some(data[pos..pos + n]);
      assert data[pos..pos + n] == data[pos..][..n];
      assert data[pos + n..] == data[pos..][n..];
      pos := pos + n;
    }

    /** A header with the expected identifier octet, then its content. */
    method ReadElement(tag: byte) returns (r: Option<bytes>)
      requires Valid()
      modifies this
      ensures Valid()
      ensures match Element(tag, old(Rest()))
              case None => r == None
              case Some((body, rest)) => r == Some(body) && Rest() == rest
    {
      var h := DecodeHeader();
      if h.None? || h.value.0 != tag {
        return None;
      }
      r := ReadSlice(h.value.1);
    }

    method DecodeInt() returns (r: Option<bytes>)
      requires Valid()
      modifies this
      ensures Valid()
      ensures match IntegerOctets(old(Rest()))
              case None => r == None
              case Some((body, rest)) => r == Some(body) && Rest() == rest
    {
      r := ReadElement(INTEGER);
      if r.Some? && !Minimal(r.value) {
        r := None;
      }
    }

    method DecodeBool() returns (r: Option<bool>)
      requires Valid()
      modifies this
      ensures Valid()
      ensures match Boolean(old(Rest()))
              case None => r == None
              case Some((v, rest)) => r == Some(v) && Rest() == rest
    {
      var body := ReadElement(BOOLEAN);
      if body.None? || |body.value| != 1 {
        return None;
      }
      if body.value[0] == 0 {
        assert body.value == [0];
        return Some(false);
      }
      if body.value[0] == 255 {
        assert body.value == [255];
        return Some(true);
      }
      return None;
    }

    method DecodeI32() returns (r: Option<int>)
      requires Valid()
      modifies this
      ensures Valid()
      ensures match SignedInteger(4, old(Rest()))
              case None => r == None
              case Some((v, rest)) => r == Some(v) && Rest() == rest
    {
      var body := DecodeInt();
      if body.None? || |body.value| > 4 {
        return None;
      }
      var v := SignExtend(body.value, 4);
      return Some(v);
    }

    method DecodeU64() returns (r: Option<nat>)
      requires Valid()
      modifies this
      ensures Valid()
      ensures match UnsignedInteger(old(Rest()))
              case None => r == None
              case Some((v, rest)) => r == Some(v) && Rest() == rest
    {
      var body := DecodeInt();
      if body.None? || body.value[0] >= 128 || |body.value| > 8 {
        return None;
      }
      var bytes := body.value;
      var buf := new byte[8](_ => 0);
      var offset := 8 - |bytes|;
      forall i | offset <= i < 8 {
        buf[i] := bytes[i - offset];
      }
      assert buf[..] == seq(offset, i => 0) + bytes;
      PadZero(offset, bytes);
      TwosComplementValue(bytes);
      return Some(BigEndian(buf[..]));
    }

    method DecodeEnumerated() returns (r: Option<int>)
      requires Valid()
      modifies this
      ensures Valid()
      ensures match Enumerated(old(Rest()))
              case None => r == None
              case Some((v, rest)) => r == Some(v) && Rest() == rest
    {
      var body := ReadElement(ENUMERATED);
      if body.None? || |body.value| > 4 {
        return None;
      }
      var v := SignExtend(body.value, 4);
      return Some(v);
    }
  }
}
