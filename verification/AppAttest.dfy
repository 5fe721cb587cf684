/** The Apple App Attest verifier, from the raw attestation object to an outcome. */
module AppAttest {
  import opened Bytes
  import opened Bcs
  import opened Chains
  import Agreement
  import AttestationObjects
  import AuthData
  import CoseKeys
  import Outcomes
  import SwiftExtract
  import SwiftReader

  const APPLE_APP_ATTEST: bytes := Ascii("apple-app-attest")
  const FORMAT: bytes := Ascii("apple-appattest")
  const AAGUID_PRODUCTION: bytes := Ascii("appattest") + [0, 0, 0, 0, 0, 0, 0]
  const AAGUID_DEVELOPMENT: bytes := Ascii("appattestdevelop")

  /** What the caller says about the attestation it expects. */
  datatype Expectation = Expectation(keyId: bytes, challenge: bytes, appId: bytes, production: bool)

  /** The nonce the leaf certificate must carry. */
  function Nonce(sha256: bytes -> Digest, authData: bytes, challenge: bytes): Digest {
    sha256(authData + sha256(challenge))
  }

  function Aaguid(production: bool): (id: bytes)
    ensures |id| == 16
  {
    if production then AAGUID_PRODUCTION else AAGUID_DEVELOPMENT
  }

  /** The checks on parsed authenticator data and the extracted key. */
  predicate Expected(sha256: bytes -> Digest, auth: AuthData.AuthenticatorData, pk: bytes, e: Expectation) {
    && sha256(pk) == e.keyId
    && auth.aaguid == Aaguid(e.production)
    && auth.rpIdHash == sha256(e.appId)
    && auth.signCount == 0
  }

  /** `verify_app_attest`. */
  function Verify(pki: Pki, root: Certificate, sha256: bytes -> Digest, obj: bytes, e: Expectation, clockMs: u64)
    : Option<Outcomes.Outcome>
  {
    var stmt :- AttestationObjects.ParseAttestationObject(obj);
    if stmt.fmt != FORMAT then None
    else
      var auth :- AuthData.Parse(stmt.authData);
      var leaf :- AppleLeaf(pki, root, stmt.x5c, clockMs);
      var nonce :- leaf.nonce;
      if nonce != Nonce(sha256, stmt.authData, e.challenge) then None
      else
        var pk :- CoseKeys.ParseKey(auth.credentialPublicKey);
        if !Expected(sha256, auth, pk, e) then None
        else Some(Outcomes.Outcome(APPLE_APP_ATTEST, pk, e.challenge, clockMs, sha256(obj)))
  }

  /** The only authenticator data that meets an expectation, given its free parts. */
  function ExpectedData(sha256: bytes -> Digest, e: Expectation, flags: byte, credentialId: bytes, cose: bytes): bytes {
    sha256(e.appId) + [flags] + [0, 0, 0, 0] + Aaguid(e.production)
    + ToBigEndian(|credentialId|, 2) + credentialId + cose
  }

  lemma ExpectedDataIsLayout(sha256: bytes -> Digest, e: Expectation, flags: byte, credentialId: bytes, cose: bytes)
    ensures ExpectedData(sha256, e, flags, credentialId, cose)
         == AuthData.Layout(AuthData.AuthenticatorData(sha256(e.appId), flags, 0, Aaguid(e.production),
                                                       credentialId, cose))
  {
    assert ToBigEndian(0, 1) == [0];
    assert ToBigEndian(0, 2) == [0, 0];
    assert ToBigEndian(0, 3) == [0, 0, 0];
    assert ToBigEndian(0, 4) == [0, 0, 0, 0];
  }

  /**
   Acceptance octet by octet: the authenticator data starts with the hash of the application, has the
   attested-credential flag, a zero counter and the identifier of the expected environment, ends in a
   P-256 key with the expected hash, and is what the leaf certificate's nonce was computed over.
   */
  lemma AcceptedMeans(pki: Pki, root: Certificate, sha256: bytes -> Digest, obj: bytes, e: Expectation, clockMs: u64)
    requires Verify(pki, root, sha256, obj, e, clockMs).Some?
    ensures var stmt := AttestationObjects.ParseAttestationObject(obj).value;
            var o := Verify(pki, root, sha256, obj, e, clockMs).value;
            && stmt.fmt == FORMAT
            && AppleLeaf(pki, root, stmt.x5c, clockMs).Some?
            && AppleLeaf(pki, root, stmt.x5c, clockMs).value.nonce == Some(sha256(stmt.authData + sha256(e.challenge)))
            && e.keyId == sha256(o.attestedValue)
            && o == Outcomes.Outcome(APPLE_APP_ATTEST, o.attestedValue, e.challenge, clockMs, sha256(obj))
            && exists flags: byte, credentialId: bytes, cose: bytes ::
                 stmt.authData == ExpectedData(sha256, e, flags, credentialId, cose)
                 && AuthData.HasCredential(flags) && |credentialId| < 0x1_0000
                 && CoseKeys.ParseKey(cose) == Some(o.attestedValue)
  {
    hide AttestationObjects.ParseAttestationObject, AuthData.Parse, AppleLeaf, CoseKeys.ParseKey, AuthData.Layout,
      ExpectedData;
    var stmt := AttestationObjects.ParseAttestationObject(obj).value;
    var auth := AuthData.Parse(stmt.authData).value;
    AuthData.LayoutParse(stmt.authData);
    ExpectedDataIsLayout(sha256, e, auth.flags, auth.credentialId, auth.credentialPublicKey);
    assert auth == AuthData.AuthenticatorData(sha256(e.appId), auth.flags, 0, Aaguid(e.production),
                                              auth.credentialId, auth.credentialPublicKey);
  }

  /** The 16 octets that name the environment: "appattest" and seven zeros, or "appattestdevelop". */
  function EnvironmentOctets(production: bool): bytes {
    if production then [97, 112, 112, 97, 116, 116, 101, 115, 116, 0, 0, 0, 0, 0, 0, 0]
    else [97, 112, 112, 97, 116, 116, 101, 115, 116, 100, 101, 118, 101, 108, 111, 112]
  }

  lemma AaguidOctets(production: bool)
    ensures Aaguid(production) == EnvironmentOctets(production)
  {
  }

  lemma ZeroOctets(s: bytes)
    requires |s| == 4
    ensures BigEndian(s) == 0 <==> s == [0, 0, 0, 0]
  {
    assert [0, 0, 0, 0][..3] == [0, 0, 0] && [0, 0, 0][..2] == [0, 0] && [0, 0][..1] == [0];
    assert BigEndian([0]) == 0 && BigEndian([0, 0]) == 0 && BigEndian([0, 0, 0]) == 0;
    assert BigEndian([0, 0, 0, 0]) == 0;
    if BigEndian(s) == 0 {
      BigEndianInjective(s, [0, 0, 0, 0]);
    }
  }

  /** The 55 octets and more of authenticator data that are looked at, and the key that follows the identifier. */
  predicate DataExpected(sha256: bytes -> Digest, ad: bytes, e: Expectation, pk: bytes) {
    && |ad| >= 55 && |ad| >= 55 + BigEndian(ad[53..55])
    && ad[..32] == sha256(e.appId)
    && ad[32] / 64 % 2 == 1
    && ad[33..37] == [0, 0, 0, 0]
    && ad[37..53] == EnvironmentOctets(e.production)
    && CoseKeys.ParseKey(ad[55 + BigEndian(ad[53..55])..]) == Some(pk)
    && sha256(pk) == e.keyId
  }

  lemma DataExpectedExactly(sha256: bytes -> Digest, ad: bytes, e: Expectation, pk: bytes)
    ensures DataExpected(sha256, ad, e, pk) <==>
              && AuthData.Parse(ad).Some?
              && CoseKeys.ParseKey(AuthData.Parse(ad).value.credentialPublicKey) == Some(pk)
              && Expected(sha256, AuthData.Parse(ad).value, pk, e)
  {
    hide CoseKeys.ParseKey, BigEndian, Aaguid, EnvironmentOctets;
    AaguidOctets(e.production);
    if |ad| >= 55 {
      ZeroOctets(ad[33..37]);
    }
  }

  /**
   The verifier octet by octet: which format, which authenticator data and key, and which nonce in the leaf are
   accepted; and which outcome is reached.
   */
  lemma AcceptedExactly(pki: Pki, root: Certificate, sha256: bytes -> Digest, obj: bytes, e: Expectation, clockMs: u64,
                        o: Outcomes.Outcome)
    ensures Verify(pki, root, sha256, obj, e, clockMs) == Some(o) <==>
              var stmt := AttestationObjects.ParseAttestationObject(obj);
              && stmt.Some? && stmt.value.fmt == FORMAT
              && var ad, leaf := stmt.value.authData, AppleLeaf(pki, root, stmt.value.x5c, clockMs);
              && leaf.Some? && leaf.value.nonce == Some(sha256(ad + sha256(e.challenge)))
              && DataExpected(sha256, ad, e, o.attestedValue)
              && o == Outcomes.Outcome(APPLE_APP_ATTEST, o.attestedValue, e.challenge, clockMs, sha256(obj))
  {
    hide AttestationObjects.ParseAttestationObject, AppleLeaf, CoseKeys.ParseKey, AuthData.Parse, Expected,
      DataExpected;
    var stmt := AttestationObjects.ParseAttestationObject(obj);
    if stmt.Some? {
      DataExpectedExactly(sha256, stmt.value.authData, e, o.attestedValue);
      if Verify(pki, root, sha256, obj, e, clockMs).Some? {
        var auth := AuthData.Parse(stmt.value.authData).value;
        DataExpectedExactly(sha256, stmt.value.authData, e, CoseKeys.ParseKey(auth.credentialPublicKey).value);
      }
    }
  }

  /** And every object with such authenticator data is accepted, with this outcome. */
  lemma ExpectedDataAccepted(pki: Pki, root: Certificate, sha256: bytes -> Digest, obj: bytes, e: Expectation,
                             clockMs: u64, flags: byte, credentialId: bytes, cose: bytes, pk: bytes)
    requires var stmt := AttestationObjects.ParseAttestationObject(obj);
             && stmt.Some? && stmt.value.fmt == FORMAT
             && stmt.value.authData == ExpectedData(sha256, e, flags, credentialId, cose)
             && var leaf := AppleLeaf(pki, root, stmt.value.x5c, clockMs);
             && leaf.Some? && leaf.value.nonce == Some(sha256(stmt.value.authData + sha256(e.challenge)))
    requires AuthData.HasCredential(flags) && |credentialId| < 0x1_0000
    requires CoseKeys.ParseKey(cose) == Some(pk) && e.keyId == sha256(pk)
    ensures Verify(pki, root, sha256, obj, e, clockMs)
         == Some(Outcomes.Outcome(APPLE_APP_ATTEST, pk, e.challenge, clockMs, sha256(obj)))
  {
    hide AttestationObjects.ParseAttestationObject, AuthData.Parse, AppleLeaf, CoseKeys.ParseKey, AuthData.Layout,
      ExpectedData;
    ExpectedDataIsLayout(sha256, e, flags, credentialId, cose);
    var a := AuthData.AuthenticatorData(sha256(e.appId), flags, 0, Aaguid(e.production), credentialId, cose);
    AuthData.ParseLayout(a);
  }

  /** The authenticator data and the leaf nonce of an object the verifier accepts. */
  function AuthDataOf(obj: bytes): Option<bytes> {
    var stmt :- AttestationObjects.ParseAttestationObject(obj);
    Some(stmt.authData)
  }

  function LeafNonce(pki: Pki, root: Certificate, obj: bytes, clockMs: u64): Option<bytes> {
    var stmt :- AttestationObjects.ParseAttestationObject(obj);
    var leaf :- AppleLeaf(pki, root, stmt.x5c, clockMs);
    leaf.nonce
  }

  /** The nonce determines what it was computed over, up to collisions. */
  lemma NonceBinds(sha256: bytes -> Digest, a1: bytes, c1: bytes, a2: bytes, c2: bytes)
    requires Nonce(sha256, a1, c1) == Nonce(sha256, a2, c2)
    ensures (a1 == a2 && c1 == c2)
            || Collision(sha256, a1 + sha256(c1), a2 + sha256(c2)) || Collision(sha256, c1, c2)
  {
    var x, y := a1 + sha256(c1), a2 + sha256(c2);
    if x == y {
      assert |a1| == |a2|;
      assert a1 == x[..|a1|] == y[..|a2|] == a2;
      assert sha256(c1) == x[|a1|..] == y[|a2|..] == sha256(c2);
    }
  }

  /**
   One leaf binds one attestation: any two accepted calls whose leaf certificates carry the same nonce
   have the same authenticator data, challenge and attested key, or exhibit a hash collision.
   */
  lemma OneNonceOneAttestation(pki: Pki, root: Certificate, sha256: bytes -> Digest,
                               o1: bytes, e1: Expectation, t1: u64, o2: bytes, e2: Expectation, t2: u64)
    requires Verify(pki, root, sha256, o1, e1, t1).Some? && Verify(pki, root, sha256, o2, e2, t2).Some?
    requires LeafNonce(pki, root, o1, t1) == LeafNonce(pki, root, o2, t2)
    ensures var a1, a2 := AuthDataOf(o1).value, AuthDataOf(o2).value;
            || (a1 == a2 && e1.challenge == e2.challenge
                && Verify(pki, root, sha256, o1, e1, t1).value.attestedValue
                == Verify(pki, root, sha256, o2, e2, t2).value.attestedValue)
            || Collision(sha256, a1 + sha256(e1.challenge), a2 + sha256(e2.challenge))
            || Collision(sha256, e1.challenge, e2.challenge)
  {
    hide AttestationObjects.ParseAttestationObject, AuthData.Parse, AppleLeaf, CoseKeys.ParseKey, Nonce, Expected,
      Collision;
    NonceBinds(sha256, AuthDataOf(o1).value, e1.challenge, AuthDataOf(o2).value, e2.challenge);
  }

  /** Hence one leaf has one key identifier, application and environment as well. */
  lemma OneAttestationOneExpectation(pki: Pki, root: Certificate, sha256: bytes -> Digest,
                                     o1: bytes, e1: Expectation, t1: u64, o2: bytes, e2: Expectation, t2: u64)
    requires Verify(pki, root, sha256, o1, e1, t1).Some? && Verify(pki, root, sha256, o2, e2, t2).Some?
    requires AuthDataOf(o1) == AuthDataOf(o2)
    ensures e1.keyId == e2.keyId && e1.production == e2.production
    ensures e1.appId == e2.appId || Collision(sha256, e1.appId, e2.appId)
  {
    hide AttestationObjects.ParseAttestationObject, AuthData.Parse, AppleLeaf, CoseKeys.ParseKey, Nonce;
    assert AAGUID_PRODUCTION[9] == 0 && AAGUID_DEVELOPMENT[9] == 'd' as int;
  }

  /** The key an accepted object attests is the one the iOS app stores for it, if its cursor can read it. */
  lemma AppStoresAttestedKey(pki: Pki, root: Certificate, sha256: bytes -> Digest, obj: bytes, e: Expectation,
                             clockMs: u64)
    requires |obj| <= SwiftReader.INT_MAX
    requires Verify(pki, root, sha256, obj, e, clockMs).Some?
    ensures SwiftExtract.ExtractKey(obj)
            == SwiftReader.Ok(Verify(pki, root, sha256, obj, e, clockMs).value.attestedValue)
            <==> Agreement.CursorReadable(obj, Agreement.CoseOctets(obj).value)
  {
    hide AttestationObjects.ParseAttestationObject, AuthData.Parse, AppleLeaf, CoseKeys.ParseKey, Nonce, Expected,
      SwiftExtract.ExtractKey, Agreement.CursorReadable;
    Agreement.ExtractorsAgree(obj, Verify(pki, root, sha256, obj, e, clockMs).value.attestedValue);
  }

  /** For one object and expectation the accepting clocks form an interval. */
  lemma AcceptingClocksConvex(pki: Pki, root: Certificate, sha256: bytes -> Digest, obj: bytes, e: Expectation,
                              t1: u64, t: u64, t2: u64)
    requires t1 <= t <= t2
    requires Verify(pki, root, sha256, obj, e, t1).Some? && Verify(pki, root, sha256, obj, e, t2).Some?
    ensures Verify(pki, root, sha256, obj, e, t)
         == Some(Verify(pki, root, sha256, obj, e, t1).value.(timestampMs := t))
  {
    hide AttestationObjects.ParseAttestationObject, AuthData.Parse, AppleLeaf, CoseKeys.ParseKey, Nonce, Expected;
    AppleAcceptanceInterval(pki, root, AttestationObjects.ParseAttestationObject(obj).value.x5c, t1, t, t2);
  }

  lemma Names()
    ensures FORMAT == Ascii("apple-appattest") && APPLE_APP_ATTEST == Ascii("apple-app-attest")
  {
  }
}
