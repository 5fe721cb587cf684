/**
 DER encoders for the attestation extension and its parts (section 8 of X.690 with the minimal
 lengths of section 10.1), and the proofs that the decoders invert them.
 */
module KeyDescriptionEncoding {
  import opened Bytes
  import opened Der
  import opened KeyDescriptions
  import Tlv

  function BootStateCode(state: VerifiedBootState): nat {
    match state
    case Verified => 0
    case SelfSigned => 1
    case Unverified => 2
    case Failed => 3
  }

  function EncodeEnumerated(v: int): bytes {
    EncodeElement(ENUMERATED, EncodeInt(v))
  }

  function EncodeBoolean(b: bool): bytes {
    EncodeElement(BOOLEAN, [if b then 255 else 0])
  }

  function BootHashTail(hash: Option<bytes>): bytes {
    match hash
    case None => []
    case Some(h) => EncodeElement(OCTET_STRING, h)
  }

  function RootOfTrustBody(rot: RootOfTrust): bytes {
    EncodeElement(OCTET_STRING, rot.verifiedBootKey)
    + (EncodeBoolean(rot.deviceLocked)
       + (EncodeEnumerated(BootStateCode(rot.verifiedBootState))
          + BootHashTail(rot.verifiedBootHash)))
  }

  function EncodeRootOfTrust(rot: RootOfTrust): bytes {
    EncodeElement(SEQUENCE, RootOfTrustBody(rot))
  }

  lemma EnumeratedRoundTrip(v: int, rest: bytes)
    requires -0x8000_0000 <= v < 0x8000_0000
    ensures Enumerated(EncodeEnumerated(v) + rest) == Some((v, rest))
  {
    Pow256Values();
    EncodeIntLength(v, 4);
    EncodeIntRoundTrip(v);
    ElementRoundTrip(ENUMERATED, EncodeInt(v), rest);
  }

  /** Unlike INTEGER, an ENUMERATED value has several accepted spellings, the empty one included. */
  lemma EnumeratedIsLenient(rest: bytes)
    ensures Enumerated(EncodeElement(ENUMERATED, []) + rest) == Some((0, rest))
    ensures Enumerated(EncodeElement(ENUMERATED, [0, 0]) + rest) == Some((0, rest))
  {
    ElementRoundTrip(ENUMERATED, [], rest);
    ElementRoundTrip(ENUMERATED, [0, 0], rest);
    assert [0, 0][..1] == [0];
    assert TwosComplement([0, 0]) == 0;
  }

  lemma BooleanRoundTrip(b: bool, rest: bytes)
    ensures Boolean(EncodeBoolean(b) + rest) == Some((b, rest))
  {
    ElementRoundTrip(BOOLEAN, [if b then 255 else 0], rest);
  }

  lemma RootOfTrustParts(body: bytes, rot: RootOfTrust, b1: bytes, b2: bytes, b3: bytes)
    requires Element(OCTET_STRING, body) == Some((rot.verifiedBootKey, b1))
    requires Boolean(b1) == Some((rot.deviceLocked, b2))
    requires Enumerated(b2) == Some((BootStateCode(rot.verifiedBootState), b3))
    requires b3 == [] <==> rot.verifiedBootHash == None
    requires rot.verifiedBootHash.Some? ==> Element(OCTET_STRING, b3) == Some((rot.verifiedBootHash.value, []))
    ensures ParseRootOfTrustBody(body) == Some(rot)
  {
    hide Element, Boolean, Enumerated;
  }

  lemma BootHashRoundTrip(hash: Option<bytes>)
    requires hash.Some? ==> |hash.value| <= MAX_LENGTH
    ensures BootHashTail(hash) == [] <==> hash == None
    ensures hash.Some? ==> Element(OCTET_STRING, BootHashTail(hash)) == Some((hash.value, []))
  {
    if hash.Some? {
      ElementRoundTrip(OCTET_STRING, hash.value, []);
      assert BootHashTail(hash) + [] == BootHashTail(hash);
    }
  }

  lemma RootOfTrustBodyRoundTrip(rot: RootOfTrust)
    requires |rot.verifiedBootKey| <= MAX_LENGTH
    requires rot.verifiedBootHash.Some? ==> |rot.verifiedBootHash.value| <= MAX_LENGTH
    ensures ParseRootOfTrustBody(RootOfTrustBody(rot)) == Some(rot)
  {
    hide Element, Boolean, Enumerated, EncodeElement;
    var b3 := BootHashTail(rot.verifiedBootHash);
    var code := BootStateCode(rot.verifiedBootState);
    var b2 := EncodeEnumerated(code) + b3;
    var b1 := EncodeBoolean(rot.deviceLocked) + b2;
    ElementRoundTrip(OCTET_STRING, rot.verifiedBootKey, b1);
    BooleanRoundTrip(rot.deviceLocked, b2);
    EnumeratedRoundTrip(code, b3);
    BootHashRoundTrip(rot.verifiedBootHash);
    RootOfTrustParts(RootOfTrustBody(rot), rot, b1, b2, b3);
  }

  lemma RootOfTrustSizes(rot: RootOfTrust)
    ensures |rot.verifiedBootKey| <= |RootOfTrustBody(rot)|
    ensures rot.verifiedBootHash.Some? ==> |rot.verifiedBootHash.value| <= |RootOfTrustBody(rot)|
  {
  }

  lemma RootOfTrustRoundTrip(rot: RootOfTrust, rest: bytes)
    requires |RootOfTrustBody(rot)| <= MAX_LENGTH
    ensures ParseRootOfTrust(EncodeRootOfTrust(rot) + rest) == Some((rot, rest))
  {
    RootOfTrustSizes(rot);
    RootOfTrustBodyRoundTrip(rot);
    ElementRoundTrip(SEQUENCE, RootOfTrustBody(rot), rest);
  }

  /** Nor are octets after the boot hash; but without a hash, what follows must be one. */
  lemma MoreAfterHash(rot: RootOfTrust, more: bytes)
    requires |rot.verifiedBootKey| <= MAX_LENGTH
    requires rot.verifiedBootHash.Some? ==> |rot.verifiedBootHash.value| <= MAX_LENGTH
    ensures rot.verifiedBootHash.Some? ==> ParseRootOfTrustBody(RootOfTrustBody(rot) + more) == Some(rot)
    ensures rot.verifiedBootHash.None? && more != [] ==>
              ParseRootOfTrustBody(RootOfTrustBody(rot) + more)
              == match Element(OCTET_STRING, more)
                 case None => None
                 case Some((hash, _)) => Some(rot.(verifiedBootHash := Some(hash)))
  {
    hide Element, Boolean, Enumerated, EncodeElement;
    var b3 := BootHashTail(rot.verifiedBootHash) + more;
    var code := BootStateCode(rot.verifiedBootState);
    var b2 := EncodeEnumerated(code) + b3;
    var b1 := EncodeBoolean(rot.deviceLocked) + b2;
    ElementRoundTrip(OCTET_STRING, rot.verifiedBootKey, b1);
    BooleanRoundTrip(rot.deviceLocked, b2);
    EnumeratedRoundTrip(code, b3);
    assert RootOfTrustBody(rot) + more == EncodeElement(OCTET_STRING, rot.verifiedBootKey) + b1;
    if rot.verifiedBootHash.Some? {
      ElementRoundTrip(OCTET_STRING, rot.verifiedBootHash.value, more);
      BootHashRoundTrip(rot.verifiedBootHash);
      assert b3 != [];
    } else {
      assert b3 == more;
    }
    var body := RootOfTrustBody(rot) + more;
    assert Element(OCTET_STRING, body) == Some((rot.verifiedBootKey, b1));
    assert Boolean(b1) == Some((rot.deviceLocked, b2)) && Enumerated(b2) == Some((code, b3));
    assert BootStateOf(code) == Some(rot.verifiedBootState);
  }

  // AuthorizationList

  function EncodeField(tag: nat, content: Option<bytes>): bytes {
    match content
    case None => []
    case Some(c) => Tlv.EncodeHeader(CONTEXT_SPECIFIC, true, tag, |c|) + c
  }

  function FieldList(tag: nat, content: Option<bytes>): seq<Field> {
    match content
    case None => []
    case Some(c) => [Field(CONTEXT_SPECIFIC, tag, c)]
  }

  function EncodeOctets(v: bytes): bytes {
    EncodeElement(OCTET_STRING, v)
  }

  function IntegerField(v: Option<nat>): Option<bytes> {
    if v.Some? then Some(EncodeInteger(v.value)) else None
  }

  /** The DER content of each present field, with its tag, in tag order. */
  function Contents(list: AuthorizationList): seq<(nat, Option<bytes>)> {
    [ (CREATION_DATE_TIME, IntegerField(list.creationDateTime)),
      (ROOT_OF_TRUST, if list.rootOfTrust.Some? then Some(EncodeRootOfTrust(list.rootOfTrust.value)) else None),
      (OS_VERSION, IntegerField(list.osVersion)),
      (OS_PATCH_LEVEL, IntegerField(list.osPatchLevel)),
      (ATTESTATION_APPLICATION_ID,
       if list.attestationApplicationId.Some? then Some(EncodeOctets(list.attestationApplicationId.value)) else None)]
  }

  /** Each content in its EXPLICIT wrapper. */
  function EncodeContents(cs: seq<(nat, Option<bytes>)>): bytes {
    if cs == [] then [] else EncodeField(cs[0].0, cs[0].1) + EncodeContents(cs[1..])
  }

  function ContentFields(cs: seq<(nat, Option<bytes>)>): seq<Field> {
    if cs == [] then [] else FieldList(cs[0].0, cs[0].1) + ContentFields(cs[1..])
  }

  function EncodeAuthorizationList(list: AuthorizationList): bytes {
    EncodeElement(SEQUENCE, EncodeContents(Contents(list)))
  }

  /** The values that DER INTEGERs can carry through the decoders. */
  predicate InRange(list: AuthorizationList) {
    (list.creationDateTime.Some? ==> list.creationDateTime.value < 0x8000_0000_0000_0000)
    && (list.osVersion.Some? ==> list.osVersion.value < 0x8000_0000)
    && (list.osPatchLevel.Some? ==> list.osPatchLevel.value < 0x8000_0000)
  }

  lemma FieldRoundTrip(tag: nat, content: Option<bytes>, rest: bytes)
    requires tag < Tlv.TAG_MODULUS
    requires content.Some? ==> |content.value| < Tlv.TAG_MODULUS
    ensures Fields(EncodeField(tag, content) + rest) == Prepend(FieldList(tag, content), Fields(rest))
  {
    hide Tlv.ParseHeader, Tlv.EncodeHeader;
    match content
    case None =>
      assert EncodeField(tag, content) + rest == rest;
      PrependNothing(Fields(rest));
    case Some(c) =>
      var h := Tlv.EncodeHeader(CONTEXT_SPECIFIC, true, tag, |c|);
      Tlv.HeaderRoundTrip(CONTEXT_SPECIFIC, true, tag, |c|, c + rest);
      assert h + c + rest == h + (c + rest);
      assert (h + c + rest)[|h|..|h| + |c|] == c;
      assert (h + c + rest)[|h| + |c|..] == rest;
  }

  lemma {:induction false} ContentsRoundTrip(cs: seq<(nat, Option<bytes>)>)
    requires forall c | c in cs :: c.0 < Tlv.TAG_MODULUS
    requires |EncodeContents(cs)| <= MAX_LENGTH
    ensures Fields(EncodeContents(cs)) == Some(ContentFields(cs))
  {
    if cs == [] {
    } else {
      ContentsRoundTrip(cs[1..]);
      FieldRoundTrip(cs[0].0, cs[0].1, EncodeContents(cs[1..]));
    }
  }

  lemma {:induction false} ContentSizes(cs: seq<(nat, Option<bytes>)>, i: nat)
    requires i < |cs| && cs[i].1.Some?
    ensures |cs[i].1.value| <= |EncodeContents(cs)|
  {
    if i == 0 {
    } else {
      ContentSizes(cs[1..], i - 1);
    }
  }

  lemma {:induction false} AbsentTag(cs: seq<(nat, Option<bytes>)>, tag: nat)
    requires forall j | 0 <= j < |cs| :: cs[j].0 != tag
    ensures LastContent(ContentFields(cs), tag) == None
    ensures forall f | f in ContentFields(cs) :: !Tagged(f, tag)
  {
    if cs == [] {
    } else {
      LastContentConcat(FieldList(cs[0].0, cs[0].1), ContentFields(cs[1..]), tag);
      AbsentTag(cs[1..], tag);
    }
  }

  lemma {:induction false} LastOfDistinct(cs: seq<(nat, Option<bytes>)>, i: nat)
    requires i < |cs|
    requires forall j, k | 0 <= j < k < |cs| :: cs[j].0 != cs[k].0
    ensures LastContent(ContentFields(cs), cs[i].0) == cs[i].1
  {
    var (tag, content) := cs[0];
    LastContentConcat(FieldList(tag, content), ContentFields(cs[1..]), cs[i].0);
    assert content.Some? ==> [Field(CONTEXT_SPECIFIC, tag, content.value)][..0] == [];
    if i > 0 {
      LastOfDistinct(cs[1..], i - 1);
    } else {
      AbsentTag(cs[1..], tag);
    }
  }

  lemma {:induction false} ContentFieldOrigin(cs: seq<(nat, Option<bytes>)>, f: Field)
    requires f in ContentFields(cs)
    ensures f.tagClass == CONTEXT_SPECIFIC
    ensures exists i | 0 <= i < |cs| :: cs[i] == (f.tag, Some(f.content))
  {
    if f in FieldList(cs[0].0, cs[0].1) {
      assert cs[0] == (f.tag, Some(f.content));
    } else {
      ContentFieldOrigin(cs[1..], f);
      var i :| 0 <= i < |cs[1..]| && cs[1..][i] == (f.tag, Some(f.content));
      assert cs[i + 1] == (f.tag, Some(f.content));
    }
  }

  lemma IntegerContent(v: nat)
    ensures v < 0x8000_0000_0000_0000 ==> UnsignedInteger(EncodeInteger(v)).Some? && AsU64(EncodeInteger(v)) == Some(v)
    ensures v < 0x8000_0000 ==> SignedInteger(4, EncodeInteger(v)).Some? && AsU32(EncodeInteger(v)) == Some(v)
  {
    hide UnsignedInteger, SignedInteger;
    assert EncodeInteger(v) + [] == EncodeInteger(v);
    if v < 0x8000_0000_0000_0000 {
      Pow256Values();
      EncodeIntLength(v, 8);
      assert |EncodeInt(v)| <= 8;
      UnsignedIntegerExact(v, []);
      SignedIntegerExact(4, v, []);
    }
  }

  predicate IsI32(v: int) {
    -0x8000_0000 <= v < 0x8000_0000
  }

  /** `osVersion` and `osPatchLevel` wrap: a negative INTEGER reads as its value plus 2^32. */
  lemma U32Exact(v: int)
    requires |EncodeInt(v)| <= MAX_LENGTH
    ensures AsU32(EncodeInteger(v)) == if IsI32(v) then Some(if v < 0 then v + 0x1_0000_0000 else v) else None
  {
    hide SignedInteger;
    assert EncodeInteger(v) + [] == EncodeInteger(v);
    Pow256Values();
    SignedIntegerExact(4, v, []);
  }

  lemma RootOfTrustContent(rot: RootOfTrust)
    requires |EncodeRootOfTrust(rot)| <= MAX_LENGTH
    ensures AsRootOfTrust(EncodeRootOfTrust(rot)) == Some(rot)
  {
    hide ParseRootOfTrust;
    RootOfTrustRoundTrip(rot, []);
    assert EncodeRootOfTrust(rot) + [] == EncodeRootOfTrust(rot);
  }

  lemma OctetsContent(v: bytes)
    requires |EncodeOctets(v)| <= MAX_LENGTH
    ensures AsOctets(EncodeOctets(v)) == Some(v)
  {
    hide Element;
    ElementRoundTrip(OCTET_STRING, v, []);
    assert EncodeOctets(v) + [] == EncodeOctets(v);
  }

  /** Every present field decodes to the value it was encoded from. */
  lemma ContentsDecode(list: AuthorizationList)
    requires InRange(list)
    requires |EncodeContents(Contents(list))| <= MAX_LENGTH
    ensures list.creationDateTime.Some? ==> AsU64(EncodeInteger(list.creationDateTime.value)) == list.creationDateTime
    ensures list.rootOfTrust.Some? ==> AsRootOfTrust(EncodeRootOfTrust(list.rootOfTrust.value)) == list.rootOfTrust
    ensures list.osVersion.Some? ==> AsU32(EncodeInteger(list.osVersion.value)) == list.osVersion
    ensures list.osPatchLevel.Some? ==> AsU32(EncodeInteger(list.osPatchLevel.value)) == list.osPatchLevel
    ensures list.attestationApplicationId.Some? ==>
              AsOctets(EncodeOctets(list.attestationApplicationId.value)) == list.attestationApplicationId
  {
    hide AsU64, AsU32, AsRootOfTrust, AsOctets, EncodeContents, EncodeInteger, EncodeRootOfTrust, EncodeOctets;
    var cs := Contents(list);
    if list.creationDateTime.Some? {
      IntegerContent(list.creationDateTime.value);
    }
    if list.rootOfTrust.Some? {
      ContentSizes(cs, 1);
      RootOfTrustContent(list.rootOfTrust.value);
    }
    if list.osVersion.Some? {
      IntegerContent(list.osVersion.value);
    }
    if list.osPatchLevel.Some? {
      IntegerContent(list.osPatchLevel.value);
    }
    if list.attestationApplicationId.Some? {
      ContentSizes(cs, 4);
      OctetsContent(list.attestationApplicationId.value);
    }
  }

  /** A field decodes when the conversion of its content has a value. */
  lemma DecodesByConversion(f: Field)
    ensures Decodes(f) <==>
              && (Tagged(f, CREATION_DATE_TIME) ==> AsU64(f.content).Some?)
              && (Tagged(f, ROOT_OF_TRUST) ==> AsRootOfTrust(f.content).Some?)
              && (Tagged(f, OS_VERSION) ==> AsU32(f.content).Some?)
              && (Tagged(f, OS_PATCH_LEVEL) ==> AsU32(f.content).Some?)
              && (Tagged(f, ATTESTATION_APPLICATION_ID) ==> AsOctets(f.content).Some?)
  {
    hide UnsignedInteger, SignedInteger, ParseRootOfTrust, Element;
  }

  lemma InterpretContents(list: AuthorizationList)
    requires InRange(list)
    requires |EncodeContents(Contents(list))| <= MAX_LENGTH
    ensures Interpret(ContentFields(Contents(list))) == list
    ensures forall f | f in ContentFields(Contents(list)) :: Decodes(f)
  {
    hide AsU64, AsU32, AsRootOfTrust, AsOctets, Decodes, ContentFields, LastContent,
      EncodeInteger, EncodeRootOfTrust, EncodeOctets;
    var cs := Contents(list);
    ContentsDecode(list);
    forall i: nat | i < 5 ensures LastContent(ContentFields(cs), cs[i].0) == cs[i].1 {
      LastOfDistinct(cs, i);
    }
    assert cs[0].0 == CREATION_DATE_TIME && cs[1].0 == ROOT_OF_TRUST && cs[2].0 == OS_VERSION
           && cs[3].0 == OS_PATCH_LEVEL && cs[4].0 == ATTESTATION_APPLICATION_ID;
    forall f | f in ContentFields(cs) ensures Decodes(f) {
      ContentFieldOrigin(cs, f);
      DecodesByConversion(f);
    }
  }

  lemma KnownTags(list: AuthorizationList)
    ensures forall c | c in Contents(list) :: c.0 < Tlv.TAG_MODULUS
  {
    hide EncodeInteger, EncodeRootOfTrust, EncodeOctets;
  }

  lemma AuthorizationListRoundTrip(list: AuthorizationList, rest: bytes)
    requires InRange(list)
    requires |EncodeContents(Contents(list))| <= MAX_LENGTH
    ensures ParseAuthorizationList(EncodeAuthorizationList(list) + rest) == Some((list, rest))
  {
    hide Element, EncodeElement, Contents, EncodeContents, Interpret, Fields;
    var cs := Contents(list);
    ElementRoundTrip(SEQUENCE, EncodeContents(cs), rest);
    assert forall c | c in cs :: c.0 < Tlv.TAG_MODULUS by {
      KnownTags(list);
    }
    ContentsRoundTrip(cs);
    InterpretContents(list);
  }

  // KeyDescription

  /** The eight members, in order. */
  function Members(kd: KeyDescription): seq<bytes> {
    [ EncodeInteger(kd.attestationVersion),
      EncodeEnumerated(kd.attestationSecurityLevel.Rank()),
      EncodeInteger(kd.keymintVersion),
      EncodeEnumerated(kd.keymintSecurityLevel.Rank()),
      EncodeOctets(kd.attestationChallenge),
      EncodeOctets(kd.uniqueId),
      EncodeAuthorizationList(kd.softwareEnforced),
      EncodeAuthorizationList(kd.hardwareEnforced)]
  }

  function Concat(parts: seq<bytes>): bytes {
    if parts == [] then [] else parts[0] + Concat(parts[1..])
  }

  function EncodeKeyDescription(kd: KeyDescription): bytes {
    EncodeElement(SEQUENCE, Concat(Members(kd)))
  }

  predicate Encodable(kd: KeyDescription) {
    && IsI32(kd.attestationVersion) && IsI32(kd.keymintVersion)
    && InRange(kd.softwareEnforced) && InRange(kd.hardwareEnforced)
  }

  lemma {:induction false} ConcatSizes(parts: seq<bytes>, i: nat)
    requires i < |parts|
    ensures |parts[i]| <= |Concat(parts)|
  {
    if i == 0 {
    } else {
      ConcatSizes(parts[1..], i - 1);
    }
  }

  lemma I32RoundTrip(v: int, rest: bytes)
    requires IsI32(v)
    ensures SignedInteger(4, EncodeInteger(v) + rest) == Some((v, rest))
  {
    hide SignedInteger;
    Pow256Values();
    EncodeIntLength(v, 4);
    assert |EncodeInt(v)| <= 4;
    SignedIntegerExact(4, v, rest);
  }

  lemma LevelRoundTrip(level: SecurityLevel, rest: bytes)
    ensures Enumerated(EncodeEnumerated(level.Rank()) + rest) == Some((level.Rank(), rest))
    ensures SecurityLevelOf(level.Rank()) == Some(level)
  {
    EnumeratedRoundTrip(level.Rank(), rest);
  }

  lemma Unfold(parts: seq<bytes>, i: nat)
    requires i < |parts|
    ensures Concat(parts[i..]) == parts[i] + Concat(parts[i + 1..])
  {
    assert parts[i..][1..] == parts[i + 1..];
  }

  lemma OctetsRoundTrip(v: bytes, rest: bytes)
    requires |EncodeOctets(v)| <= MAX_LENGTH
    ensures Element(OCTET_STRING, EncodeOctets(v) + rest) == Some((v, rest))
  {
    ElementRoundTrip(OCTET_STRING, v, rest);
  }

  lemma ListRoundTrip(list: AuthorizationList, rest: bytes)
    requires InRange(list) && |EncodeAuthorizationList(list)| <= MAX_LENGTH
    ensures ParseAuthorizationList(EncodeAuthorizationList(list) + rest) == Some((list, rest))
  {
    hide Contents;
    AuthorizationListRoundTrip(list, rest);
  }

  /** The members of a key description, read one after another, whatever follows them. */
  lemma MembersRoundTrip(kd: KeyDescription, parts: seq<bytes>, more: bytes)
    requires Encodable(kd) && parts == Members(kd)
    requires |Concat(parts)| <= MAX_LENGTH
    ensures ParseKeyDescriptionBody(Concat(parts) + more) == Some(kd)
  {
    hide SignedInteger, Enumerated, Element, ParseAuthorizationList, SecurityLevelOf,
      EncodeElement, EncodeInteger, EncodeEnumerated, EncodeOctets, EncodeAuthorizationList, Concat;
    var b := seq(9, i requires 0 <= i < 9 => Concat(parts[i..]) + more);
    forall i | 0 <= i < 8 ensures b[i] == parts[i] + b[i + 1] && |parts[i]| <= MAX_LENGTH {
      Unfold(parts, i);
      ConcatSizes(parts, i);
      assert (parts[i] + Concat(parts[i + 1..])) + more == parts[i] + (Concat(parts[i + 1..]) + more);
    }
    assert parts[0..] == parts;
    I32RoundTrip(kd.attestationVersion, b[1]);
    LevelRoundTrip(kd.attestationSecurityLevel, b[2]);
    I32RoundTrip(kd.keymintVersion, b[3]);
    LevelRoundTrip(kd.keymintSecurityLevel, b[4]);
    OctetsRoundTrip(kd.attestationChallenge, b[5]);
    OctetsRoundTrip(kd.uniqueId, b[6]);
    ListRoundTrip(kd.softwareEnforced, b[7]);
    ListRoundTrip(kd.hardwareEnforced, b[8]);
    assert SignedInteger(4, b[0]) == Some((kd.attestationVersion, b[1]));
    assert Enumerated(b[1]) == Some((kd.attestationSecurityLevel.Rank(), b[2]));
    assert SignedInteger(4, b[2]) == Some((kd.keymintVersion, b[3]));
    assert Enumerated(b[3]) == Some((kd.keymintSecurityLevel.Rank(), b[4]));
    assert Element(OCTET_STRING, b[4]) == Some((kd.attestationChallenge, b[5]));
    assert Element(OCTET_STRING, b[5]) == Some((kd.uniqueId, b[6]));
    assert ParseAuthorizationList(b[6]) == Some((kd.softwareEnforced, b[7]));
    assert ParseAuthorizationList(b[7]) == Some((kd.hardwareEnforced, b[8]));
  }

  /** `from_der` returns exactly the description that was encoded, whatever octets follow it. */
  lemma KeyDescriptionRoundTrip(kd: KeyDescription, rest: bytes)
    requires Encodable(kd)
    requires |EncodeKeyDescription(kd) + rest| <= MAX_LENGTH
    ensures ParseKeyDescription(EncodeKeyDescription(kd) + rest) == Some(kd)
  {
    hide Element, Members, Concat, ParseKeyDescriptionBody;
    ElementRoundTrip(SEQUENCE, Concat(Members(kd)), rest);
    MembersRoundTrip(kd, Members(kd), []);
    assert Concat(Members(kd)) + [] == Concat(Members(kd));
  }

  /** Octets after the eight members, and after the SEQUENCE, are not looked at. */
  lemma MoreIsIgnored(kd: KeyDescription, more: bytes, rest: bytes)
    requires Encodable(kd)
    requires |EncodeElement(SEQUENCE, Concat(Members(kd)) + more) + rest| <= MAX_LENGTH
    ensures ParseKeyDescription(EncodeElement(SEQUENCE, Concat(Members(kd)) + more) + rest) == Some(kd)
  {
    hide Element, Members, Concat, ParseKeyDescriptionBody;
    ElementRoundTrip(SEQUENCE, Concat(Members(kd)) + more, rest);
    MembersRoundTrip(kd, Members(kd), more);
  }

  /** Hence encodable descriptions have distinct encodings, even as prefixes of longer inputs. */
  lemma KeyDescriptionsDistinct(a: KeyDescription, b: KeyDescription, x: bytes, y: bytes)
    requires Encodable(a) && Encodable(b)
    requires |EncodeKeyDescription(a) + x| <= MAX_LENGTH
    requires EncodeKeyDescription(a) + x == EncodeKeyDescription(b) + y
    ensures a == b
  {
    hide EncodeKeyDescription, ParseKeyDescription;
    KeyDescriptionRoundTrip(a, x);
    KeyDescriptionRoundTrip(b, y);
  }

  // One description in octets, with every tag that is recognised.

  const SAMPLE: KeyDescription := KeyDescription(
    3, TrustedEnvironment, 4, StrongBox, [1, 2], [],
    AuthorizationList(Some(5), None, None, None, Some([9])),
    AuthorizationList(None, Some(RootOfTrust([7], true, SelfSigned, Some([8]))), Some(1), Some(2), None))

  const SAMPLE_SOFTWARE: bytes :=
    [0x30, 0x0E, 0xBF, 0x85, 0x3D, 0x03, 0x02, 0x01, 0x05, 0xBF, 0x85, 0x45, 0x03, 0x04, 0x01, 0x09]

  const SAMPLE_ROOT: bytes :=
    [0x30, 0x0C, 0x04, 0x01, 0x07, 0x01, 0x01, 0xFF, 0x0A, 0x01, 0x01, 0x04, 0x01, 0x08]

  const SAMPLE_HARDWARE: bytes :=
    [0x30, 0x20, 0xBF, 0x85, 0x40, 0x0E] + SAMPLE_ROOT
    + [0xBF, 0x85, 0x41, 0x03, 0x02, 0x01, 0x01, 0xBF, 0x85, 0x42, 0x03, 0x02, 0x01, 0x02]

  const SAMPLE_OCTETS: bytes :=
    [0x30, 0x44, 0x02, 0x01, 0x03, 0x0A, 0x01, 0x01, 0x02, 0x01, 0x04, 0x0A, 0x01, 0x02,
     0x04, 0x02, 0x01, 0x02, 0x04, 0x00] + SAMPLE_SOFTWARE + SAMPLE_HARDWARE

  lemma FieldOctets(tag: nat, content: bytes)
    requires 640 <= tag < 768 && |content| < 128
    ensures EncodeField(tag, Some(content)) == [0xBF, 0x85, tag - 640, |content|] + content
  {
    assert Tlv.ContinuedDigits(5) == [0x85];
    assert Tlv.TagDigits(tag) == [0x85] + [tag - 640];
  }

  lemma FiveFields(a: (nat, Option<bytes>), b: (nat, Option<bytes>), c: (nat, Option<bytes>),
                   d: (nat, Option<bytes>), e: (nat, Option<bytes>))
    ensures EncodeContents([a, b, c, d, e])
         == EncodeField(a.0, a.1) + EncodeField(b.0, b.1) + EncodeField(c.0, c.1) + EncodeField(d.0, d.1)
            + EncodeField(e.0, e.1)
  {
    hide EncodeField;
    assert [a, b, c, d, e][1..] == [b, c, d, e] && [b, c, d, e][1..] == [c, d, e] && [c, d, e][1..] == [d, e];
    assert [d, e][1..] == [e] && [e][1..] == [];
    assert EncodeContents([e]) == EncodeField(e.0, e.1) + [];
    assert EncodeContents([d, e]) == EncodeField(d.0, d.1) + EncodeField(e.0, e.1);
    assert EncodeContents([c, d, e]) == EncodeField(c.0, c.1) + (EncodeField(d.0, d.1) + EncodeField(e.0, e.1));
  }

  lemma SmallInteger(v: nat)
    requires v < 128
    ensures EncodeInteger(v) == [2, 1, v]
  {
    ShortEncoding(INTEGER, [v]);
    assert EncodeInt(v) == [v];
  }

  lemma NoField(tag: nat)
    ensures EncodeField(tag, None) == []
  {
  }

  lemma SampleSoftware()
    ensures EncodeAuthorizationList(SAMPLE.softwareEnforced) == SAMPLE_SOFTWARE
  {
    hide EncodeField, EncodeElement, EncodeInteger;
    var list := SAMPLE.softwareEnforced;
    SmallInteger(5);
    ShortEncoding(OCTET_STRING, [9]);
    assert EncodeOctets([9]) == [4, 1, 9];
    FieldOctets(701, [2, 1, 5]);
    FieldOctets(709, [4, 1, 9]);
    var cs := Contents(list);
    FiveFields(cs[0], cs[1], cs[2], cs[3], cs[4]);
    NoField(704);
    NoField(705);
    NoField(706);
    var body := [0xBF, 0x85, 0x3D, 0x03, 0x02, 0x01, 0x05] + [0xBF, 0x85, 0x45, 0x03, 0x04, 0x01, 0x09];
    assert EncodeField(cs[0].0, cs[0].1) == [0xBF, 0x85, 0x3D, 0x03, 0x02, 0x01, 0x05];
    assert EncodeField(cs[4].0, cs[4].1) == [0xBF, 0x85, 0x45, 0x03, 0x04, 0x01, 0x09];
    assert EncodeContents(cs) == body;
    ShortEncoding(SEQUENCE, body);
  }

  lemma SampleRoot()
    ensures EncodeRootOfTrust(RootOfTrust([7], true, SelfSigned, Some([8]))) == SAMPLE_ROOT
  {
    hide EncodeElement;
    ShortEncoding(OCTET_STRING, [7]);
    ShortEncoding(OCTET_STRING, [8]);
    ShortEncoding(BOOLEAN, [255]);
    assert EncodeInt(1) == [1];
    ShortEncoding(ENUMERATED, [1]);
    var body := [4, 1, 7] + ([1, 1, 255] + ([10, 1, 1] + [4, 1, 8]));
    assert RootOfTrustBody(RootOfTrust([7], true, SelfSigned, Some([8]))) == body;
    ShortEncoding(SEQUENCE, body);
  }

  lemma SampleHardware()
    ensures EncodeAuthorizationList(SAMPLE.hardwareEnforced) == SAMPLE_HARDWARE
  {
    hide EncodeField, EncodeElement, EncodeInteger, EncodeRootOfTrust;
    var list := SAMPLE.hardwareEnforced;
    SampleRoot();
    SmallInteger(1);
    SmallInteger(2);
    FieldOctets(704, SAMPLE_ROOT);
    FieldOctets(705, [2, 1, 1]);
    FieldOctets(706, [2, 1, 2]);
    var cs := Contents(list);
    FiveFields(cs[0], cs[1], cs[2], cs[3], cs[4]);
    NoField(701);
    NoField(709);
    var body := [0xBF, 0x85, 0x40, 0x0E] + SAMPLE_ROOT
             + [0xBF, 0x85, 0x41, 0x03, 0x02, 0x01, 0x01] + [0xBF, 0x85, 0x42, 0x03, 0x02, 0x01, 0x02];
    assert EncodeContents(cs) == body;
    ShortEncoding(SEQUENCE, body);
    assert [0x30, 0x20] + body == SAMPLE_HARDWARE;
  }

  lemma EightParts(a: bytes, b: bytes, c: bytes, d: bytes, e: bytes, f: bytes, g: bytes, h: bytes)
    ensures Concat([a, b, c, d, e, f, g, h]) == a + (b + (c + (d + (e + (f + (g + h))))))
  {
    assert [a, b, c, d, e, f, g, h][1..] == [b, c, d, e, f, g, h];
    assert [b, c, d, e, f, g, h][1..] == [c, d, e, f, g, h];
    assert [c, d, e, f, g, h][1..] == [d, e, f, g, h] && [d, e, f, g, h][1..] == [e, f, g, h];
    assert [e, f, g, h][1..] == [f, g, h] && [f, g, h][1..] == [g, h] && [g, h][1..] == [h] && [h][1..] == [];
    assert Concat([h]) == h + [];
    assert Concat([g, h]) == g + h;
    assert Concat([f, g, h]) == f + (g + h);
    assert Concat([e, f, g, h]) == e + (f + (g + h));
    assert Concat([d, e, f, g, h]) == d + (e + (f + (g + h)));
    assert Concat([c, d, e, f, g, h]) == c + (d + (e + (f + (g + h))));
  }

  lemma SampleParts()
    ensures Members(SAMPLE)
         == [[2, 1, 3], [10, 1, 1], [2, 1, 4], [10, 1, 2], [4, 2, 1, 2], [4, 0], SAMPLE_SOFTWARE, SAMPLE_HARDWARE]
  {
    hide EncodeElement, EncodeInteger, EncodeAuthorizationList;
    SmallInteger(3);
    SmallInteger(4);
    assert EncodeInt(1) == [1] && EncodeInt(2) == [2];
    ShortEncoding(ENUMERATED, [1]);
    ShortEncoding(ENUMERATED, [2]);
    assert EncodeEnumerated(1) == [10, 1, 1] && EncodeEnumerated(2) == [10, 1, 2];
    ShortEncoding(OCTET_STRING, [1, 2]);
    ShortEncoding(OCTET_STRING, []);
    assert EncodeOctets([1, 2]) == [4, 2, 1, 2] && EncodeOctets([]) == [4, 0];
    SampleSoftware();
    SampleHardware();
  }

  lemma SampleMembers()
    ensures EncodeKeyDescription(SAMPLE) == SAMPLE_OCTETS
  {
    hide EncodeElement, Members, Concat;
    SampleParts();
    EightParts([2, 1, 3], [10, 1, 1], [2, 1, 4], [10, 1, 2], [4, 2, 1, 2], [4, 0], SAMPLE_SOFTWARE, SAMPLE_HARDWARE);
    var body := [2, 1, 3] + ([10, 1, 1] + ([2, 1, 4] + ([10, 1, 2] + ([4, 2, 1, 2]
             + ([4, 0] + (SAMPLE_SOFTWARE + SAMPLE_HARDWARE))))));
    ShortEncoding(SEQUENCE, body);
    assert [0x30, 0x44] + body == SAMPLE_OCTETS;
  }

  /** These octets are that description, with every tag in its place. */
  lemma SampleParses()
    ensures ParseKeyDescription(SAMPLE_OCTETS) == Some(SAMPLE)
  {
    hide EncodeElement, EncodeInteger, EncodeAuthorizationList, ParseKeyDescription, Concat, EncodeKeyDescription;
    SampleMembers();
    assert EncodeKeyDescription(SAMPLE) + [] == SAMPLE_OCTETS;
    KeyDescriptionRoundTrip(SAMPLE, []);
  }
}
