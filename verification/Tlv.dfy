/**
 The hand-written BER header parser of the Android verifier: identifier octets in low or high
 tag-number form, and definite lengths of up to four subsequent octets.
 */
module Tlv {
  import opened Bytes

  const TAG_MODULUS: nat := 0x1_0000_0000

  /** `tagClass` is the two-bit tag class; `headerLen` counts identifier and length octets. */
  datatype Header = Header(tagClass: nat, constructed: bool, tag: nat, headerLen: nat, bodyLen: nat)

  /** Value of octets read as base-128 digits, ignoring each octet's continuation bit. */
  function Base128(s: bytes): nat {
    if s == [] then 0 else Base128(s[..|s| - 1]) * 128 + s[|s| - 1] % 128
  }

  /** The tag number that base-128 digits stand for in a 32-bit word. */
  function TagValue(s: bytes): nat {
    Base128(s) % TAG_MODULUS
  }

  /** `checked_shl(7)` then `checked_add` on a u32: bits shifted past the top are lost, not refused. */
  function ShiftIn(n: nat, b: byte): nat {
    n * 128 % TAG_MODULUS + b % 128
  }

  /** Number of octets up to and including the first one whose continuation bit is clear. */
  function DigitCount(s: bytes): (n: Option<nat>)
    ensures n.Some? ==> 0 < n.value <= |s|
  {
    if s == [] then None
    else if s[0] < 128 then Some(1)
    else
      var n :- DigitCount(s[1..]);
      Some(n + 1)
  }

  /** Length octets at the front of `s`: the value and the number of octets they take. */
  function LengthOctets(s: bytes): (r: Option<(nat, nat)>)
    ensures r.Some? ==> 0 < r.value.1 <= |s|
  {
    if s == [] then None
    else if s[0] < 128 then Some((s[0], 1))
    else
      var n := s[0] - 128;
      if n == 0 || n > 4 || 1 + n > |s| then None
      else Some((BigEndian(s[1..1 + n]), 1 + n))
  }

  /** Identifier octets at the front of `s`: the tag number and how many octets it takes. */
  function TagOctets(s: bytes): (r: Option<(nat, nat)>)
    ensures r.Some? ==> 0 < r.value.1 <= |s|
  {
    if s == [] then None
    else if s[0] % 32 < 31 then Some((s[0] % 32, 1))
    else
      var n :- DigitCount(s[1..]);
      Some((TagValue(s[1..1 + n]), 1 + n))
  }

  /** The header at the front of `s`, in terms of the unbounded values of its digit strings. */
  function ParseHeader(s: bytes): (r: Option<Header>)
    ensures r.Some? ==> 2 <= r.value.headerLen <= |s|
  {
    var (tag, i) :- TagOctets(s);
    var (len, k) :- LengthOctets(s[i..]);
    Some(Header(s[0] / 64, s[0] / 32 % 2 == 1, tag, i + k, len))
  }

  lemma {:induction false} NoLastDigit(s: bytes)
    requires forall i :: 0 <= i < |s| ==> s[i] >= 128
    ensures DigitCount(s) == None
  {
    if s == [] {
    } else {
      NoLastDigit(s[1..]);
    }
  }

  lemma {:induction false} LastDigit(s: bytes, k: nat)
    requires k < |s| && s[k] < 128
    requires forall i :: 0 <= i < k ==> s[i] >= 128
    ensures DigitCount(s) == Some(k + 1)
  {
    if k == 0 {
    } else {
      LastDigit(s[1..], k - 1);
    }
  }

  lemma Remainder(x: nat, q: int, r: nat)
    requires x == TAG_MODULUS * q + r && r < TAG_MODULUS
    ensures x % TAG_MODULUS == r
  {
  }

  lemma WrapStep(v: nat, d: nat)
    requires d < 128
    ensures (v * 128 + d) % TAG_MODULUS == v % TAG_MODULUS * 128 % TAG_MODULUS + d
  {
    // The low seven bits are free, so adding a digit never carries out of the word.
    var q, h := v / 0x200_0000, v % 0x200_0000;
    var p, w := v / 0x1_0000_0000, v % 0x1_0000_0000;
    assert v == 0x200_0000 * q + h && v == 0x1_0000_0000 * p + w;
    assert v * 128 + d == 0x1_0000_0000 * q + (h * 128 + d);
    assert w * 128 == 0x1_0000_0000 * (q - 128 * p) + h * 128;
    Remainder(v * 128 + d, q, h * 128 + d);
    Remainder(w * 128, q - 128 * p, h * 128);
  }

  /** One 32-bit shift-and-add step is one base-128 digit modulo 2^32. */
  lemma TagStep(s: bytes, k: nat)
    requires k < |s|
    ensures TagValue(s[..k + 1]) == ShiftIn(TagValue(s[..k]), s[k])
  {
    assert s[..k + 1][..k] == s[..k];
    WrapStep(Base128(s[..k]), s[k] % 128);
  }

  method ReadTag(data: bytes, pos: nat) returns (r: Option<(nat, nat)>)
    requires pos < |data|
    ensures r == TagOctets(data[pos..])
  {
    var low5 := data[pos] % 32;
    if low5 < 31 {
      return Some((low5, 1));
    }
    ghost var s := data[pos..][1..];
    var cur := pos + 1;
    var n: nat := 0;
    ghost var k := 0;
    while cur < |data|
      invariant cur == pos + 1 + k <= |data|
      invariant forall i :: 0 <= i < k ==> s[i] >= 128
      invariant n == TagValue(s[..k])
    {
      var b := data[cur];
      assert b == s[k];
      TagStep(s, k);
      n := ShiftIn(n, b);
      cur, k := cur + 1, k + 1;
      if b < 128 {
        LastDigit(s, k - 1);
        assert data[pos..][1..1 + k] == s[..k];
        return Some((n, cur - pos));
      }
    }
    NoLastDigit(s);
    return None;
  }

  method ReadLength(data: bytes, pos: nat) returns (r: Option<(nat, nat)>)
    requires pos <= |data|
    ensures r == LengthOctets(data[pos..])
  {
    if pos >= |data| {
      return None;
    }
    var lenFirst := data[pos];
    if lenFirst < 128 {
      return Some((lenFirst, 1));
    }
    var n := lenFirst - 128;
    if n == 0 || n > 4 {
      return None;
    }
    var start, v: nat := pos + 1, 0;
    for i := 0 to n
      invariant start + i <= |data|
      invariant v == BigEndian(data[start..start + i])
    {
      if start + i >= |data| {
        return None;
      }
      assert data[start..start + i + 1] == data[start..start + i] + [data[start + i]];
      BigEndianSnoc(data[start..start + i], data[start + i]);
      v := v * 256 + data[start + i];
    }
    assert data[pos..][1..1 + n] == data[start..start + n];
    return Some((v, 1 + n));
  }

  /** `parse_tlv_header`: its loops over a 32-bit tag and a word-sized length compute `ParseHeader`. */
  method ParseTlvHeader(data: bytes, pos: nat) returns (r: Option<Header>)
    ensures r == if pos <= |data| then ParseHeader(data[pos..]) else None
  {
    if pos >= |data| {
      return None;
    }
    var first := data[pos];
    var tag := ReadTag(data, pos);
    if tag.None? {
      return None;
    }
    var cur := pos + tag.value.1;
    assert data[pos..][tag.value.1..] == data[cur..];
    var len := ReadLength(data, cur);
    if len.None? {
      return None;
    }
    cur := cur + len.value.1;
    return Some(Header(first / 64, first / 32 % 2 != 0, tag.value.0, cur - pos, len.value.0));
  }

  // Encoding (sections 8.1.2, 8.1.3 and 10.1 of X.690), and inversion.

  /** Digits of `v` with every continuation bit set. */
  function ContinuedDigits(v: nat): (s: bytes)
    ensures |s| > 0
  {
    if v < 128 then [v + 128] else ContinuedDigits(v / 128) + [v % 128 + 128]
  }

  /** High-tag-number octets of `v`, fewest possible. */
  function TagDigits(v: nat): (s: bytes)
    ensures |s| > 0
  {
    if v < 128 then [v] else ContinuedDigits(v / 128) + [v % 128]
  }

  /** How many octets an unsigned length below 2^32 needs. */
  function OctetsNeeded(v: nat): (n: nat)
    ensures 1 <= n <= 4
  {
    if v < 0x100 then 1 else if v < 0x1_0000 then 2 else if v < 0x100_0000 then 3 else 4
  }

  /** Shortest definite length octets, for lengths below 2^32. */
  function EncodeLength(v: nat): (s: bytes)
    ensures |s| > 0
  {
    if v < 128 then [v]
    else [128 + OctetsNeeded(v)] + ToBigEndian(v, OctetsNeeded(v))
  }

  /** Class and constructed bit: the top three bits of the first identifier octet. */
  function TopBits(tagClass: nat, constructed: bool): nat {
    tagClass * 2 + if constructed then 1 else 0
  }

  function EncodeTag(top: nat, tag: nat): (s: bytes)
    requires top < 8
    ensures |s| > 0
  {
    if tag < 31 then [top * 32 + tag] else [top * 32 + 31] + TagDigits(tag)
  }

  function EncodeHeader(tagClass: nat, constructed: bool, tag: nat, len: nat): bytes
    requires tagClass < 4
  {
    EncodeTag(TopBits(tagClass, constructed), tag) + EncodeLength(len)
  }

  lemma {:induction false} ContinuedDigitsShape(v: nat)
    ensures Base128(ContinuedDigits(v)) == v
    ensures forall i :: 0 <= i < |ContinuedDigits(v)| ==> ContinuedDigits(v)[i] >= 128
  {
    var s := ContinuedDigits(v);
    if v < 128 {
      assert s[..0] == [];
    } else {
      ContinuedDigitsShape(v / 128);
      assert s[..|s| - 1] == ContinuedDigits(v / 128);
    }
  }

  lemma TagDigitsParse(v: nat, rest: bytes)
    ensures DigitCount(TagDigits(v) + rest) == Some(|TagDigits(v)|)
    ensures Base128(TagDigits(v)) == v
  {
    var s := TagDigits(v);
    if v < 128 {
      assert s[..0] == [];
    } else {
      ContinuedDigitsShape(v / 128);
      assert s[..|s| - 1] == ContinuedDigits(v / 128);
    }
    LastDigit(s + rest, |s| - 1);
  }

  lemma LengthRoundTrip(v: nat, rest: bytes)
    requires v < TAG_MODULUS
    ensures LengthOctets(EncodeLength(v) + rest) == Some((v, |EncodeLength(v)|))
  {
    if v >= 128 {
      var n := OctetsNeeded(v);
      Pow256Values();
      ToBigEndianValue(v, n);
      assert (EncodeLength(v) + rest)[1..1 + n] == ToBigEndian(v, n);
    }
  }

  lemma TopBitsSplit(tagClass: nat, constructed: bool, first: byte)
    requires first / 32 == TopBits(tagClass, constructed)
    ensures first / 64 == tagClass && (first / 32 % 2 == 1 <==> constructed)
  {
  }

  lemma FirstOctet(top: nat, low: nat)
    requires top < 8 && low < 32
    ensures (top * 32 + low) / 32 == top && (top * 32 + low) % 32 == low
  {
  }

  lemma TagRoundTrip(top: nat, tag: nat, rest: bytes)
    requires top < 8
    ensures var t := EncodeTag(top, tag);
            TagOctets(t + rest) == Some((tag % TAG_MODULUS, |t|)) && t[0] / 32 == top
  {
    hide TagDigits, DigitCount, Base128;
    if tag >= 31 {
      var d := TagDigits(tag);
      var s := EncodeTag(top, tag) + rest;
      TagDigitsParse(tag, rest);
      FirstOctet(top, 31);
      assert s[0] == top * 32 + 31;
      assert s[1..] == d + rest;
      assert s[1..1 + |d|] == d;
    } else {
      FirstOctet(top, tag);
      assert (EncodeTag(top, tag) + rest)[0] == top * 32 + tag;
    }
  }

  /**
   Parsing an encoded header returns its class, constructed bit and length, whatever follows, and
   its tag number modulo 2^32: a tag and the same tag plus 2^32 are not told apart.
   */
  lemma EncodedHeaderParses(tagClass: nat, constructed: bool, tag: nat, len: nat, rest: bytes)
    requires tagClass < 4 && len < TAG_MODULUS
    ensures var e := EncodeHeader(tagClass, constructed, tag, len);
            ParseHeader(e + rest) == Some(Header(tagClass, constructed, tag % TAG_MODULUS, |e|, len))
  {
    hide TagOctets, LengthOctets, EncodeTag, EncodeLength;
    var e := EncodeHeader(tagClass, constructed, tag, len);
    var l := EncodeLength(len);
    LengthRoundTrip(len, rest);
    TagRoundTrip(TopBits(tagClass, constructed), tag, l + rest);
    var t := EncodeTag(TopBits(tagClass, constructed), tag);
    assert e + rest == t + (l + rest);
    assert (e + rest)[0] == t[0];
    TopBitsSplit(tagClass, constructed, t[0]);
    assert (e + rest)[|t|..] == l + rest;
  }

  /** For every tag and length below 2^32 the parser inverts the encoder exactly. */
  lemma HeaderRoundTrip(tagClass: nat, constructed: bool, tag: nat, len: nat, rest: bytes)
    requires tagClass < 4 && tag < TAG_MODULUS && len < TAG_MODULUS
    ensures var e := EncodeHeader(tagClass, constructed, tag, len);
            ParseHeader(e + rest) == Some(Header(tagClass, constructed, tag, |e|, len))
  {
    EncodedHeaderParses(tagClass, constructed, tag, len, rest);
  }

  /** Every accepted header has a two-bit class, and a tag and a length below 2^32. */
  lemma HeaderBounds(s: bytes)
    requires ParseHeader(s).Some?
    ensures var h := ParseHeader(s).value;
            h.tagClass < 4 && h.tag < TAG_MODULUS && h.bodyLen < TAG_MODULUS
  {
    var t := s[TagOctets(s).value.1..];
    if t[0] >= 128 {
      var n := t[0] - 128;
      BigEndianBound(t[1..1 + n]);
      Pow256Monotone(n, 4);
      Pow256Values();
    }
  }

  lemma {:induction false} DigitCountPrefix(s: bytes, n: nat, t: bytes)
    requires DigitCount(s) == Some(n)
    ensures DigitCount(s[..n] + t) == Some(n)
  {
    if s[0] < 128 {
    } else {
      DigitCountPrefix(s[1..], n - 1, t);
      assert (s[..n] + t)[1..] == s[1..][..n - 1] + t;
    }
  }

  lemma TagPrefix(s: bytes, t: bytes)
    requires TagOctets(s).Some?
    ensures TagOctets(s[..TagOctets(s).value.1] + t) == TagOctets(s)
  {
    if s[0] % 32 == 31 {
      var n := DigitCount(s[1..]).value;
      var u := s[..1 + n] + t;
      DigitCountPrefix(s[1..], n, t);
      assert u[1..] == s[1..][..n] + t;
      assert u[1..1 + n] == s[1..1 + n];
    }
  }

  lemma LengthPrefix(s: bytes, t: bytes)
    requires LengthOctets(s).Some?
    ensures LengthOctets(s[..LengthOctets(s).value.1] + t) == LengthOctets(s)
  {
    if s[0] >= 128 {
      var n := s[0] - 128;
      assert (s[..1 + n] + t)[1..1 + n] == s[1..1 + n];
    }
  }

  /** A header is decided by its own octets: replacing all that follows them changes nothing. */
  lemma HeaderPrefix(s: bytes, t: bytes)
    requires ParseHeader(s).Some?
    ensures ParseHeader(s[..ParseHeader(s).value.headerLen] + t) == ParseHeader(s)
  {
    hide TagOctets, LengthOctets;
    var i, k := TagOctets(s).value.1, LengthOctets(s[TagOctets(s).value.1..]).value.1;
    var u := s[..i + k] + t;
    assert u == s[..i] + (s[i..i + k] + t);
    TagPrefix(s, s[i..i + k] + t);
    LengthPrefix(s[i..], t);
    assert s[i..][..k] == s[i..i + k];
    assert u[i..] == s[i..i + k] + t;
  }

  // The headers that are accepted, octet by octet.

  /** The first `i` octets carry this tag number: five bits, or base-128 digits up to one without the top bit. */
  predicate TagForm(s: bytes, tag: nat, i: nat) {
    && 1 <= i <= |s|
    && if s[0] % 32 != 31 then i == 1 && tag == s[0] % 32
       else i >= 2 && s[i - 1] < 128 && (forall j | 1 <= j < i - 1 :: s[j] >= 128)
            && tag == Base128(s[1..i]) % 0x1_0000_0000
  }

  /** The first `k` octets carry this length: one below 128, or one to four after an octet that counts them. */
  predicate LengthForm(s: bytes, len: nat, k: nat) {
    && 1 <= k <= |s|
    && if s[0] < 128 then k == 1 && len == s[0]
       else 129 <= s[0] <= 132 && k == s[0] - 127 && len == BigEndian(s[1..k])
  }

  lemma {:induction false} DigitCountExactly(s: bytes, n: nat)
    ensures DigitCount(s) == Some(n) <==> 1 <= n <= |s| && s[n - 1] < 128 && forall j | 0 <= j < n - 1 :: s[j] >= 128
  {
    if s == [] || s[0] < 128 {
    } else if n >= 1 {
      DigitCountExactly(s[1..], n - 1);
    }
  }

  lemma TagOctetsExactly(s: bytes, tag: nat, i: nat)
    ensures TagOctets(s) == Some((tag, i)) <==> TagForm(s, tag, i)
  {
    hide Base128;
    if s != [] && s[0] % 32 == 31 && i >= 1 {
      DigitCountExactly(s[1..], i - 1);
      assert forall j | 0 <= j < |s| - 1 :: s[1..][j] == s[j + 1];
      assert i <= |s| ==> s[1..][..i - 1] == s[1..i];
    }
  }

  lemma LengthOctetsExactly(s: bytes, len: nat, k: nat)
    ensures LengthOctets(s) == Some((len, k)) <==> LengthForm(s, len, k)
  {
    hide BigEndian;
  }

  /** A header is accepted exactly when its octets have these forms, and then it is the one they spell. */
  lemma HeaderExactly(s: bytes, h: Header)
    ensures ParseHeader(s) == Some(h) <==>
              exists i: nat, k: nat ::
                && i <= |s| && TagForm(s, h.tag, i) && LengthForm(s[i..], h.bodyLen, k) && h.headerLen == i + k
                && s != [] && h.tagClass == s[0] / 64 && (h.constructed <==> s[0] / 32 % 2 == 1)
  {
    hide TagOctets, LengthOctets, TagForm, LengthForm;
    if ParseHeader(s) == Some(h) {
      var (tag, i) := TagOctets(s).value;
      var (len, k) := LengthOctets(s[i..]).value;
      TagOctetsExactly(s, tag, i);
      LengthOctetsExactly(s[i..], len, k);
      assert TagForm(s, h.tag, i) && LengthForm(s[i..], h.bodyLen, k) && h.headerLen == i + k;
    }
    if exists i: nat, k: nat ::
      && i <= |s| && TagForm(s, h.tag, i) && LengthForm(s[i..], h.bodyLen, k) && h.headerLen == i + k
      && s != [] && h.tagClass == s[0] / 64 && (h.constructed <==> s[0] / 32 % 2 == 1)
    {
      var i: nat, k: nat :|
        && i <= |s| && TagForm(s, h.tag, i) && LengthForm(s[i..], h.bodyLen, k) && h.headerLen == i + k
        && s != [] && h.tagClass == s[0] / 64 && (h.constructed <==> s[0] / 32 % 2 == 1);
      TagOctetsExactly(s, h.tag, i);
      LengthOctetsExactly(s[i..], h.bodyLen, k);
    }
  }
}
