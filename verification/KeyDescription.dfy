/**
 The Android key attestation extension: `AuthorizationList` walked as raw TLVs and dispatched on tag
 number, `RootOfTrust`, and the enclosing `KeyDescription`.
 */
module KeyDescriptions {
  import opened Bytes
  import opened Der
  import Tlv

  datatype SecurityLevel = Software | TrustedEnvironment | StrongBox {
    function Rank(): nat {
      match this
      case Software => 0
      case TrustedEnvironment => 1
      case StrongBox => 2
    }

    predicate Meets(other: SecurityLevel) {
      Rank() >= other.Rank()
    }
  }

  datatype VerifiedBootState = Verified | SelfSigned | Unverified | Failed

  datatype RootOfTrust = RootOfTrust(
    verifiedBootKey: bytes,
    deviceLocked: bool,
    verifiedBootState: VerifiedBootState,
    verifiedBootHash: Option<bytes>)

  datatype AuthorizationList = AuthorizationList(
    creationDateTime: Option<nat>,
    rootOfTrust: Option<RootOfTrust>,
    osVersion: Option<nat>,
    osPatchLevel: Option<nat>,
    attestationApplicationId: Option<bytes>)

  datatype KeyDescription = KeyDescription(
    attestationVersion: int,
    attestationSecurityLevel: SecurityLevel,
    keymintVersion: int,
    keymintSecurityLevel: SecurityLevel,
    attestationChallenge: bytes,
    uniqueId: bytes,
    softwareEnforced: AuthorizationList,
    hardwareEnforced: AuthorizationList)

  const CREATION_DATE_TIME: nat := 701
  const ROOT_OF_TRUST: nat := 704
  const OS_VERSION: nat := 705
  const OS_PATCH_LEVEL: nat := 706
  const ATTESTATION_APPLICATION_ID: nat := 709

  const CONTEXT_SPECIFIC: nat := 2

  function SecurityLevelOf(code: int): Option<SecurityLevel> {
    match code
    case 0 => Some(Software)
    case 1 => Some(TrustedEnvironment)
    case 2 => Some(StrongBox)
    case _ => None
  }

  function BootStateOf(code: int): Option<VerifiedBootState> {
    match code
    case 0 => Some(Verified)
    case 1 => Some(SelfSigned)
    case 2 => Some(Unverified)
    case 3 => Some(Failed)
    case _ => None
  }

  // RootOfTrust

  function ParseRootOfTrustBody(body: bytes): Option<RootOfTrust> {
    var (key, b1) :- Element(OCTET_STRING, body);
    var (locked, b2) :- Boolean(b1);
    var (code, b3) :- Enumerated(b2);
    var state :- BootStateOf(code);
    if b3 == [] then Some(RootOfTrust(key, locked, state, None))
    else
      var (hash, _) :- Element(OCTET_STRING, b3);
      Some(RootOfTrust(key, locked, state, Some(hash)))
  }

  function ParseRootOfTrust(s: bytes): Option<(RootOfTrust, bytes)> {
    var (body, rest) :- Element(SEQUENCE, s);
    var rot :- ParseRootOfTrustBody(body);
    Some((rot, rest))
  }

  method DecodeRootOfTrust(reader: SliceReader) returns (r: Option<RootOfTrust>)
    requires reader.Valid()
    modifies reader
    ensures reader.Valid()
    ensures match ParseRootOfTrust(old(reader.Rest()))
            case None => r == None
            case Some((rot, rest)) => r == Some(rot) && reader.Rest() == rest
  {
    var body := reader.ReadElement(SEQUENCE);
    if body.None? {
      return None;
    }
    var br := new SliceReader(body.value);
    var key := br.ReadElement(OCTET_STRING);
    if key.None? {
      return None;
    }
    var locked := br.DecodeBool();
    if locked.None? {
      return None;
    }
    var code := br.DecodeEnumerated();
    if code.None? {
      return None;
    }
    var state := BootStateOf(code.value);
    if state.None? {
      return None;
    }
    if br.IsFinished() {
      return Some(RootOfTrust(key.value, locked.value, state.value, None));
    }
    var hash := br.ReadElement(OCTET_STRING);
    if hash.None? {
      return None;
    }
    return Some(RootOfTrust(key.value, locked.value, state.value, hash));
  }

  // AuthorizationList: the body as a list of tagged contents.

  datatype Field = Field(tagClass: nat, tag: nat, content: bytes)

  /** The TLV at the front of `s` and how many octets it takes. */
  function FirstField(s: bytes): (r: Option<(Field, nat)>)
    ensures r.Some? ==> 2 <= r.value.1 <= |s|
  {
    var h :- Tlv.ParseHeader(s);
    var end := h.headerLen + h.bodyLen;
    if end > |s| then None else Some((Field(h.tagClass, h.tag, s[h.headerLen..end]), end))
  }

  /** Cut `body` into TLVs; present only if it is an exact concatenation of them. */
  function Fields(body: bytes): Option<seq<Field>>
    decreases |body|
  {
    if body == [] then Some([])
    else
      var (f, end) :- FirstField(body);
      var rest :- Fields(body[end..]);
      Some([f] + rest)
  }

  predicate Tagged(f: Field, tag: nat) {
    f.tagClass == CONTEXT_SPECIFIC && f.tag == tag
  }

  /** Content of the last context-specific field with this tag. */
  function LastContent(fs: seq<Field>, tag: nat): Option<bytes> {
    if fs == [] then None
    else if Tagged(fs[|fs| - 1], tag) then Some(fs[|fs| - 1].content)
    else LastContent(fs[..|fs| - 1], tag)
  }

  /** A field with a recognised tag must decode; any other field is accepted as it is. */
  predicate Decodes(f: Field) {
    (Tagged(f, CREATION_DATE_TIME) ==> UnsignedInteger(f.content).Some?)
    && (Tagged(f, ROOT_OF_TRUST) ==> ParseRootOfTrust(f.content).Some?)
    && (Tagged(f, OS_VERSION) ==> SignedInteger(4, f.content).Some?)
    && (Tagged(f, OS_PATCH_LEVEL) ==> SignedInteger(4, f.content).Some?)
    && (Tagged(f, ATTESTATION_APPLICATION_ID) ==> Element(OCTET_STRING, f.content).Some?)
  }

  function AsU64(content: bytes): Option<nat> {
    var (v, _) :- UnsignedInteger(content);
    Some(v)
  }

  /** `n as u32`: a negative INTEGER wraps modulo 2^32. */
  function AsU32(content: bytes): Option<nat> {
    var (v, _) :- SignedInteger(4, content);
    Some(v % 0x1_0000_0000)
  }

  function AsRootOfTrust(content: bytes): Option<RootOfTrust> {
    var (v, _) :- ParseRootOfTrust(content);
    Some(v)
  }

  function AsOctets(content: bytes): Option<bytes> {
    var (v, _) :- Element(OCTET_STRING, content);
    Some(v)
  }

  /** Each recognised field is what the last field with its tag decodes to. */
  function Interpret(fs: seq<Field>): AuthorizationList {
    var created, root := LastContent(fs, CREATION_DATE_TIME), LastContent(fs, ROOT_OF_TRUST);
    var version, patch := LastContent(fs, OS_VERSION), LastContent(fs, OS_PATCH_LEVEL);
    var application := LastContent(fs, ATTESTATION_APPLICATION_ID);
    AuthorizationList(
      if created.Some? then AsU64(created.value) else None,
      if root.Some? then AsRootOfTrust(root.value) else None,
      if version.Some? then AsU32(version.value) else None,
      if patch.Some? then AsU32(patch.value) else None,
      if application.Some? then AsOctets(application.value) else None)
  }

  function ParseFields(body: bytes): Option<AuthorizationList> {
    var fs :- Fields(body);
    if forall f | f in fs :: Decodes(f) then Some(Interpret(fs)) else None
  }

  function ParseAuthorizationList(s: bytes): Option<(AuthorizationList, bytes)> {
    var (body, rest) :- Element(SEQUENCE, s);
    var list :- ParseFields(body);
    Some((list, rest))
  }

  /** One turn of the loop, first half: a header, and a content that lies within the body. */
  method ReadField(body: bytes, pos: nat) returns (r: Option<(Field, nat)>)
    requires pos < |body|
    ensures r == FirstField(body[pos..])
  {
    var h := Tlv.ParseTlvHeader(body, pos);
    if h.None? {
      return None;
    }
    var start := pos + h.value.headerLen;
    var end := start + h.value.bodyLen;
    if end > |body| {
      return None;
    }
    assert body[start..end] == body[pos..][h.value.headerLen..end - pos];
    return Some((Field(h.value.tagClass, h.value.tag, body[start..end]), end - pos));
  }

  /** `out` with the field that `f` carries, if any, replaced. */
  function Update(out: AuthorizationList, f: Field): AuthorizationList {
    AuthorizationList(
      if Tagged(f, CREATION_DATE_TIME) then AsU64(f.content) else out.creationDateTime,
      if Tagged(f, ROOT_OF_TRUST) then AsRootOfTrust(f.content) else out.rootOfTrust,
      if Tagged(f, OS_VERSION) then AsU32(f.content) else out.osVersion,
      if Tagged(f, OS_PATCH_LEVEL) then AsU32(f.content) else out.osPatchLevel,
      if Tagged(f, ATTESTATION_APPLICATION_ID) then AsOctets(f.content) else out.attestationApplicationId)
  }

  /** One turn of the loop, second half: dispatch on class and tag number. */
  method DecodeField(f: Field, out: AuthorizationList) returns (r: Option<AuthorizationList>)
    ensures r == if Decodes(f) then Some(Update(out, f)) else None
  {
    if f.tagClass != CONTEXT_SPECIFIC {
      return Some(out);
    }
    var tag := f.tag;
    var ir := new SliceReader(f.content);
    if tag == CREATION_DATE_TIME {
      var n := ir.DecodeU64();
      return if n.Some? then Some(out.(creationDateTime := n)) else None;
    } else if tag == ROOT_OF_TRUST {
      var rot := DecodeRootOfTrust(ir);
      return if rot.Some? then Some(out.(rootOfTrust := rot)) else None;
    } else if tag == OS_VERSION {
      var n := ir.DecodeI32();
      return if n.Some? then Some(out.(osVersion := Some(n.value % 0x1_0000_0000))) else None;
    } else if tag == OS_PATCH_LEVEL {
      var n := ir.DecodeI32();
      return if n.Some? then Some(out.(osPatchLevel := Some(n.value % 0x1_0000_0000))) else None;
    } else if tag == ATTESTATION_APPLICATION_ID {
      var v := ir.ReadElement(OCTET_STRING);
      return if v.Some? then Some(out.(attestationApplicationId := v)) else None;
    }
    return Some(out);
  }

  lemma InterpretNothing()
    ensures Interpret([]) == AuthorizationList(None, None, None, None, None)
  {
  }

  lemma LastContentSnoc(fs: seq<Field>, f: Field, tag: nat)
    ensures LastContent(fs + [f], tag) == if Tagged(f, tag) then Some(f.content) else LastContent(fs, tag)
  {
    assert (fs + [f])[..|fs|] == fs;
  }

  lemma InterpretSnoc(fs: seq<Field>, f: Field)
    ensures Interpret(fs + [f]) == Update(Interpret(fs), f)
  {
    LastContentSnoc(fs, f, CREATION_DATE_TIME);
    LastContentSnoc(fs, f, ROOT_OF_TRUST);
    LastContentSnoc(fs, f, OS_VERSION);
    LastContentSnoc(fs, f, OS_PATCH_LEVEL);
    LastContentSnoc(fs, f, ATTESTATION_APPLICATION_ID);
  }

  /** The loop of `decode_authorization_list`, overwriting fields as it goes, computes `ParseFields`. */
  method DecodeFields(body: bytes) returns (r: Option<AuthorizationList>)
    ensures r == ParseFields(body)
  {
    hide Decodes, FirstField, Update, Interpret;
    var out := AuthorizationList(None, None, None, None, None);
    InterpretNothing();
    var pos := 0;
    ghost var seen: seq<Field> := [];
    assert body[0..] == body;
    PrependNothing(Fields(body));
    while pos < |body|
      invariant pos <= |body|
      invariant Fields(body) == Prepend(seen, Fields(body[pos..]))
      invariant forall f | f in seen :: Decodes(f)
      invariant out == Interpret(seen)
    {
      var f := ReadField(body, pos);
      if f.None? {
        return None;
      }
      var (field, n) := f.value;
      assert body[pos..][n..] == body[pos + n..];
      PrependTwice(seen, [field], Fields(body[pos + n..]));
      var next := DecodeField(field, out);
      if next.None? {
        assert field in seen + [field];
        return None;
      }
      InterpretSnoc(seen, field);
      out := next.value;
      seen, pos := seen + [field], pos + n;
    }
    assert body[pos..] == [];
    assert seen + [] == seen;
    return Some(out);
  }

  method DecodeAuthorizationList(reader: SliceReader) returns (r: Option<AuthorizationList>)
    requires reader.Valid()
    modifies reader
    ensures reader.Valid()
    ensures match ParseAuthorizationList(old(reader.Rest()))
            case None => r == None
            case Some((list, rest)) => r == Some(list) && reader.Rest() == rest
  {
    var body := reader.ReadElement(SEQUENCE);
    if body.None? {
      return None;
    }
    r := DecodeFields(body.value);
  }

  // What the list means: order and unknown fields do not matter.

  /** `LastContent` finds the content of a field with the tag after which there is no other. */
  lemma {:induction false} LastContentIsLast(fs: seq<Field>, tag: nat)
    ensures LastContent(fs, tag) == None <==> forall i | 0 <= i < |fs| :: !Tagged(fs[i], tag)
    ensures forall c :: LastContent(fs, tag) == Some(c) <==>
              exists i | 0 <= i < |fs| :: Tagged(fs[i], tag) && fs[i].content == c
                && forall j | i < j < |fs| :: !Tagged(fs[j], tag)
  {
    if fs == [] {
    } else {
      var n := |fs| - 1;
      LastContentIsLast(fs[..n], tag);
      if !Tagged(fs[n], tag) {
        forall c | LastContent(fs, tag) == Some(c)
          ensures exists i | 0 <= i < |fs| :: Tagged(fs[i], tag) && fs[i].content == c
                    && forall j | i < j < |fs| :: !Tagged(fs[j], tag)
        {
          var i :| 0 <= i < n && Tagged(fs[..n][i], tag) && fs[..n][i].content == c
            && forall j | i < j < n :: !Tagged(fs[..n][j], tag);
          assert Tagged(fs[i], tag) && forall j | i < j < |fs| :: !Tagged(fs[j], tag);
        }
        forall c, i | 0 <= i < |fs| && Tagged(fs[i], tag) && fs[i].content == c
                      && forall j | i < j < |fs| :: !Tagged(fs[j], tag)
          ensures LastContent(fs, tag) == Some(c)
        {
          assert i < n && Tagged(fs[..n][i], tag);
        }
      }
    }
  }

  lemma FirstFieldPrefix(a: bytes, b: bytes)
    requires FirstField(a).Some?
    ensures FirstField(a + b) == FirstField(a)
  {
    hide Tlv.ParseHeader;
    var h := Tlv.ParseHeader(a).value;
    Tlv.HeaderPrefix(a, a[h.headerLen..] + b);
    assert a + b == a[..h.headerLen] + (a[h.headerLen..] + b);
    var end := h.headerLen + h.bodyLen;
    assert (a + b)[h.headerLen..end] == a[h.headerLen..end];
  }

  /** A body splits wherever a list of whole fields ends. */
  lemma {:induction false} FieldsConcat(a: bytes, b: bytes)
    requires Fields(a).Some?
    ensures Fields(a + b) == Prepend(Fields(a).value, Fields(b))
    decreases |a|
  {
    if a == [] {
      assert a + b == b;
      PrependNothing(Fields(b));
    } else {
      var (f, end) := FirstField(a).value;
      FirstFieldPrefix(a, b);
      assert (a + b)[end..] == a[end..] + b;
      FieldsConcat(a[end..], b);
      PrependTwice([f], Fields(a[end..]).value, Fields(b));
    }
  }

  lemma {:induction false} LastContentConcat(a: seq<Field>, b: seq<Field>, tag: nat)
    ensures LastContent(a + b, tag) == if LastContent(b, tag).Some? then LastContent(b, tag) else LastContent(a, tag)
  {
    if b == [] {
      assert a + b == a;
    } else {
      LastContentConcat(a, b[..|b| - 1], tag);
      assert (a + b)[..|a + b| - 1] == a + b[..|b| - 1];
    }
  }

  predicate Recognised(f: Field) {
    f.tagClass == CONTEXT_SPECIFIC
    && f.tag in {CREATION_DATE_TIME, ROOT_OF_TRUST, OS_VERSION, OS_PATCH_LEVEL, ATTESTATION_APPLICATION_ID}
  }

  /** Two field lists that agree, in order, on each recognised tag are read alike. */
  lemma SameContentsSameList(a: seq<Field>, b: seq<Field>)
    requires forall f :: Recognised(f) ==> (f in a <==> f in b)
    requires forall tag :: Recognised(Field(CONTEXT_SPECIFIC, tag, [])) ==> LastContent(a, tag) == LastContent(b, tag)
    ensures Interpret(a) == Interpret(b)
    ensures (forall f | f in a :: Decodes(f)) <==> (forall f | f in b :: Decodes(f))
  {
    assert forall tag |
      tag in {CREATION_DATE_TIME, ROOT_OF_TRUST, OS_VERSION, OS_PATCH_LEVEL, ATTESTATION_APPLICATION_ID} ::
        Recognised(Field(CONTEXT_SPECIFIC, tag, []));
    assert forall f :: !Recognised(f) ==> Decodes(f);
  }

  lemma UnknownContents(x: seq<Field>, y: seq<Field>, z: seq<Field>)
    requires forall f | f in y :: !Recognised(f)
    ensures Interpret(x + y + z) == Interpret(x + z)
    ensures (forall f | f in x + y + z :: Decodes(f)) <==> (forall f | f in x + z :: Decodes(f))
  {
    forall tag | Recognised(Field(CONTEXT_SPECIFIC, tag, []))
      ensures LastContent(x + y + z, tag) == LastContent(x + z, tag)
    {
      LastContentConcat(x + y, z, tag);
      LastContentConcat(x, y, tag);
      LastContentConcat(x, z, tag);
      LastContentIsLast(y, tag);
      forall i | 0 <= i < |y| ensures !Tagged(y[i], tag) {
        assert !Recognised(y[i]);
      }
    }
    SameContentsSameList(x + y + z, x + z);
  }

  /** Inserting or removing a field of another class or an unknown tag, anywhere, changes nothing. */
  lemma UnknownFieldsIgnored(a: bytes, u: bytes, b: bytes)
    requires Fields(a).Some? && Fields(u).Some?
    requires forall f | f in Fields(u).value :: !Recognised(f)
    ensures ParseFields(a + u + b) == ParseFields(a + b)
  {
    FieldsConcat(a, u);
    FieldsConcat(a + u, b);
    FieldsConcat(a, b);
    if Fields(b).Some? {
      UnknownContents(Fields(a).value, Fields(u).value, Fields(b).value);
    }
  }

  /** No two fields carry the same recognised tag. */
  predicate DistinctTags(fs: seq<Field>) {
    forall i, j | 0 <= i < j < |fs| && Recognised(fs[i]) && Recognised(fs[j]) :: fs[i].tag != fs[j].tag
  }

  /** Fields with distinct tags may come in any order. */
  lemma OrderIrrelevant(a: bytes, b: bytes)
    requires Fields(a).Some? && Fields(b).Some?
    requires multiset(Fields(a).value) == multiset(Fields(b).value)
    requires DistinctTags(Fields(a).value)
    ensures ParseFields(a) == ParseFields(b)
  {
    hide Fields, Decodes;
    var x, y := Fields(a).value, Fields(b).value;
    forall f ensures f in x <==> f in y {
      assert f in multiset(x) <==> f in multiset(y);
    }
    forall tag | Recognised(Field(CONTEXT_SPECIFIC, tag, []))
      ensures LastContent(x, tag) == LastContent(y, tag)
    {
      LastContentIsLast(x, tag);
      LastContentIsLast(y, tag);
      if LastContent(y, tag).Some? {
        var c := LastContent(y, tag).value;
        var j :| 0 <= j < |y| && Tagged(y[j], tag) && y[j].content == c;
        assert y[j] in x;
        var i :| 0 <= i < |x| && x[i] == y[j];
        assert Tagged(x[i], tag) && Recognised(x[i]);
        assert forall k | i < k < |x| :: !Tagged(x[k], tag);
      } else {
        assert forall i | 0 <= i < |x| :: x[i] in y;
      }
    }
    SameContentsSameList(x, y);
  }

  /** The level and state codes, and that all others are refused. */
  lemma CodesExactly(code: int)
    ensures SecurityLevelOf(code).Some? <==> code in {0, 1, 2}
    ensures BootStateOf(code).Some? <==> code in {0, 1, 2, 3}
    ensures SecurityLevelOf(0) == Some(Software) && SecurityLevelOf(1) == Some(TrustedEnvironment)
    ensures SecurityLevelOf(2) == Some(StrongBox)
    ensures BootStateOf(0) == Some(Verified) && BootStateOf(1) == Some(SelfSigned)
    ensures BootStateOf(2) == Some(Unverified) && BootStateOf(3) == Some(Failed)
  {
  }

  /** A body is accepted exactly when every recognised field decodes, also one that a later field overrides. */
  lemma EveryFieldDecodes(body: bytes)
    ensures ParseFields(body).Some? <==>
              && Fields(body).Some?
              && forall i | 0 <= i < |Fields(body).value| ::
                   var f := Fields(body).value[i];
                   f.tagClass == 2 ==>
                     && (f.tag == 701 ==> UnsignedInteger(f.content).Some?)
                     && (f.tag == 704 ==> ParseRootOfTrust(f.content).Some?)
                     && (f.tag == 705 || f.tag == 706 ==> SignedInteger(4, f.content).Some?)
                     && (f.tag == 709 ==> Element(0x04, f.content).Some?)
  {
    hide UnsignedInteger, SignedInteger, ParseRootOfTrust, Element, Fields, Interpret;
    if Fields(body).Some? {
      var fs := Fields(body).value;
      assert forall i | 0 <= i < |fs| :: fs[i] in fs;
    }
  }

  // KeyDescription

  /** What is left over inside the SEQUENCE, or after it, is not looked at. */
  function ParseKeyDescriptionBody(b0: bytes): Option<KeyDescription> {
    var (attestationVersion, b1) :- SignedInteger(4, b0);
    var (attestationCode, b2) :- Enumerated(b1);
    var attestationLevel :- SecurityLevelOf(attestationCode);
    var (keymintVersion, b3) :- SignedInteger(4, b2);
    var (keymintCode, b4) :- Enumerated(b3);
    var keymintLevel :- SecurityLevelOf(keymintCode);
    var (challenge, b5) :- Element(OCTET_STRING, b4);
    var (uniqueId, b6) :- Element(OCTET_STRING, b5);
    var (software, b7) :- ParseAuthorizationList(b6);
    var (hardware, _) :- ParseAuthorizationList(b7);
    Some(KeyDescription(attestationVersion, attestationLevel, keymintVersion, keymintLevel,
                        challenge, uniqueId, software, hardware))
  }

  function ParseKeyDescription(s: bytes): Option<KeyDescription> {
    if |s| > MAX_LENGTH then None
    else
      var (body, _) :- Element(SEQUENCE, s);
      ParseKeyDescriptionBody(body)
  }

  method FromDerBody(body: bytes) returns (r: Option<KeyDescription>)
    ensures r == ParseKeyDescriptionBody(body)
  {
    hide Element, SignedInteger, Enumerated, SecurityLevelOf, ParseAuthorizationList;
    var br := new SliceReader(body);
    var attestationVersion := br.DecodeI32();
    if attestationVersion.None? {
      return None;
    }
    var attestationCode := br.DecodeEnumerated();
    if attestationCode.None? {
      return None;
    }
    var attestationLevel := SecurityLevelOf(attestationCode.value);
    if attestationLevel.None? {
      return None;
    }
    var keymintVersion := br.DecodeI32();
    if keymintVersion.None? {
      return None;
    }
    var keymintCode := br.DecodeEnumerated();
    if keymintCode.None? {
      return None;
    }
    var keymintLevel := SecurityLevelOf(keymintCode.value);
    if keymintLevel.None? {
      return None;
    }
    var challenge := br.ReadElement(OCTET_STRING);
    if challenge.None? {
      return None;
    }
    var uniqueId := br.ReadElement(OCTET_STRING);
    if uniqueId.None? {
      return None;
    }
    var software := DecodeAuthorizationList(br);
    if software.None? {
      return None;
    }
    var hardware := DecodeAuthorizationList(br);
    if hardware.None? {
      return None;
    }
    return Some(KeyDescription(attestationVersion.value, attestationLevel.value, keymintVersion.value,
                               keymintLevel.value, challenge.value, uniqueId.value, software.value, hardware.value));
  }

  /** `KeyDescription::from_der`. */
  method FromDer(data: bytes) returns (r: Option<KeyDescription>)
    ensures r == ParseKeyDescription(data)
  {
    hide Element, SignedInteger, Enumerated, SecurityLevelOf, ParseAuthorizationList;
    if |data| > MAX_LENGTH {
      return None;
    }
    var reader := new SliceReader(data);
    var body := reader.ReadElement(SEQUENCE);
    if body.None? {
      return None;
    }
    r := FromDerBody(body.value);
  }
}
