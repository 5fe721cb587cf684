/**
 From the platform verifiers to an accepted action: what the enclave hashes, and what a run of the ledger
 says about the request behind a binding and about the key that a signature was checked under.
 */
module EndToEnd {
  import opened Bytes
  import opened Bcs
  import opened Nitro
  import opened Outcomes
  import opened Ledger
  import opened Compression
  import ActionMessages
  import AndroidVerifier
  import AppAssertions
  import AppAttest
  import Cbor
  import Chains
  import CoseKeys
  import KeyDescriptions
  import Revocation

  /** What the enclave trusts: certificate parsing and signatures, Apple's root, Google's roots, P-256. */
  datatype Trust = Trust(
    apple: Chains.Pki,
    appleRoot: Chains.Certificate,
    android: Chains.Pki,
    ecdsa: AppAssertions.Ecdsa)

  /** A request to one of the enclave's two attestation handlers. */
  datatype Request =
    | Apple(obj: bytes, expected: AppAttest.Expectation, clockMs: u64)
    | Android(chain: seq<bytes>, challenge: bytes, policy: AndroidVerifier.Policy, clockMs: u64)

  /** What the enclave asks a document for: a request, an assertion, or its own registration. */
  datatype Purpose =
    | ForRequest(request: Request)
    | ForAssertion(obj: bytes, clientData: bytes, key: bytes, appId: bytes, clockMs: u64)
    | Registration

  function VerifyRequest(trust: Trust, sha256: bytes -> Digest, r: Request): Option<Outcome> {
    match r
    case Apple(obj, expected, clockMs) => AppAttest.Verify(trust.apple, trust.appleRoot, sha256, obj, expected, clockMs)
    case Android(chain, challenge, policy, clockMs) =>
      AndroidVerifier.Verify(trust.android, sha256, chain, challenge, policy, clockMs)
  }

  /** `ApplePayload` and `AndroidPayload`: three fields of the outcome, in this order. */
  function HandlerPayload(o: Outcome): Payload {
    Attestation(o.attestedValue, o.challenge, o.detailHash)
  }

  /** The payload whose hash a handler puts into the document; the registration document has none. */
  function PayloadFor(trust: Trust, sha256: bytes -> Digest, purpose: Purpose): Option<Payload> {
    match purpose
    case ForRequest(r) =>
      var o :- VerifyRequest(trust, sha256, r);
      Some(HandlerPayload(o))
    case ForAssertion(obj, clientData, key, appId, clockMs) =>
      var o :- AppAssertions.Verify(trust.ecdsa, sha256, obj, clientData, key, appId, clockMs);
      Some(Assertion(o.attestedValue, o.challenge))
    case Registration => None
  }

  predicate MadeFor(trust: Trust, sha256: bytes -> Digest, doc: Document, purpose: Purpose) {
    if purpose == Registration then doc.userData == None || doc.userData == Some([])
    else
      var p := PayloadFor(trust, sha256, purpose);
      p.Some? && doc.userData == Some(sha256(Encode(p.value)))
  }

  /**
   A document the ledger accepts is not the registration document, and the witness it takes reads exactly
   as the payload that the enclave hashed, at the document's own time.
   */
  lemma OutcomeReachesLedger(trust: Trust, env: Env, e: Entry, purpose: Purpose)
    requires e.Attested? && Sound(env, e) && MadeFor(trust, env.sha256, e.doc, purpose)
    ensures PayloadFor(trust, env.sha256, purpose).Some?
    ensures var w, p := WitnessOf(env, e), PayloadFor(trust, env.sha256, purpose).value;
            && w.timestampMs == e.doc.timestamp && PayloadOf(w) == e.payload
            && (PayloadOf(w) == p || Collision(env.sha256, Encode(e.payload), Encode(p)))
    ensures purpose.ForRequest? ==>
              var w, o := WitnessOf(env, e), VerifyRequest(trust, env.sha256, purpose.request).value;
              || (w.attestedValue == o.attestedValue && w.challenge == o.challenge && w.detailHash == o.detailHash)
              || Collision(env.sha256, Encode(e.payload), Encode(PayloadFor(trust, env.sha256, purpose).value))
    ensures purpose.ForAssertion? ==>
              var w := WitnessOf(env, e);
              || (w.attestedValue == purpose.key && w.challenge == purpose.clientData)
              || Collision(env.sha256, Encode(e.payload), Encode(PayloadFor(trust, env.sha256, purpose).value))
  {
    hide Encode, VerifyRequest, PcrsMatch;
    assert |env.sha256(Encode(e.payload))| == 32;
    MintedAsHashed(env.sha256, e.source, e.pinned, e.doc,
                   PayloadFor(trust, env.sha256, purpose).value, e.payload, e.time);
  }

  /**
   The policies pin this enclave: a document presented with the measurements then pinned is one that the
   enclave had made, for the purpose in its log.
   */
  ghost predicate PinsEnclave(trust: Trust, sha256: bytes -> Digest, log: map<Document, Purpose>,
                              initial: Pcrs, h: seq<Entry>) {
    forall k | 0 <= k < |h| && h[k].Attested? && PcrsMatch(PolicyAfter(initial, h[..k]), h[k].doc.pcrs) ::
      h[k].doc in log && MadeFor(trust, sha256, h[k].doc, log[h[k].doc])
  }

  /** The request was accepted and attested this key. */
  predicate Attests(trust: Trust, sha256: bytes -> Digest, r: Request, pk: bytes) {
    VerifyRequest(trust, sha256, r).Some? && VerifyRequest(trust, sha256, r).value.attestedValue == pk
  }

  /**
   The document of this entry was made for an accepted request that attested this key and meets `good`, and
   the ledger took over its payload; or two payload encodings are a hash collision.
   */
  ghost predicate Backs(trust: Trust, sha256: bytes -> Digest, good: Request -> bool, log: map<Document, Purpose>,
                        e: Entry, pk: bytes) {
    && e.Attested? && e.doc in log && PayloadFor(trust, sha256, log[e.doc]).Some?
    && var p := PayloadFor(trust, sha256, log[e.doc]).value;
    || (log[e.doc].ForRequest? && Attests(trust, sha256, log[e.doc].request, pk) && good(log[e.doc].request)
        && e.payload == p)
    || Collision(sha256, Encode(e.payload), Encode(p))
  }

  predicate IsAttestation(source: Source) {
    source == AppleAppAttest || source == AndroidKeyAttestation
  }

  /** Some assertion by this key is accepted. */
  ghost predicate CanAssert(trust: Trust, sha256: bytes -> Digest, pk: bytes) {
    exists obj: bytes, clientData: bytes, appId: bytes, clockMs: u64 ::
      AppAssertions.Verify(trust.ecdsa, sha256, obj, clientData, pk, appId, clockMs).Some?
  }

  /** Whatever can put a document of this source behind the key is as `good` says. */
  ghost predicate OnlyGood(trust: Trust, sha256: bytes -> Digest, good: Request -> bool, source: Source, pk: bytes) {
    || (IsAttestation(source) && forall r | Attests(trust, sha256, r, pk) :: good(r))
    || (source == AppleAssertion && !CanAssert(trust, sha256, pk))
  }

  lemma DocumentBacks(trust: Trust, env: Env, good: Request -> bool, log: map<Document, Purpose>, e: Entry)
    requires e.Attested? && Sound(env, e)
    requires OnlyGood(trust, env.sha256, good, e.source, AttestedKey(e.payload))
    requires e.doc in log && MadeFor(trust, env.sha256, e.doc, log[e.doc])
    ensures Backs(trust, env.sha256, good, log, e, AttestedKey(e.payload))
  {
    hide Encode, VerifyRequest, PcrsMatch;
    OutcomeReachesLedger(trust, env, e, log[e.doc]);
  }

  /**
   When policies pin the enclave, every accepted action on a binding of an attestation source goes back to a
   request that the enclave accepted and that attested the bound key, or two payload encodings collide.
   */
  lemma AcceptedActionsAttested(trust: Trust, env: Env, log: map<Document, Purpose>,
                                clock: u64, initial: Pcrs, h: seq<Entry>, j: nat)
    requires Reached(env, clock, initial, h) && PinsEnclave(trust, env.sha256, log, initial, h)
    requires j < |h| && h[j].ActionChecked? && h[j].result
    ensures exists k: nat, b: nat, s: nat ::
              && Authorized(env, initial, h, j, k, b, s)
              && (IsAttestation(h[b].source) ==> Backs(trust, env.sha256, r => true, log, h[k], h[b].pk))
  {
    hide Reached, Encode, PolicyAfter, PcrsMatch, Signed, InOrder, Outstanding, UsedOnce, BindingsRecorded,
      ActionsBacked, PoliciesInForce, MadeFor, Backs, Attests;
    AcceptedActionsAuthorized(env, clock, initial, h, j);
    var w := ReachedWorld(env, clock, initial, h);
    var k: nat, b: nat, s: nat :| Authorized(env, initial, h, j, k, b, s);
    if IsAttestation(h[b].source) {
      assert Sound(env, h[k]);
      DocumentBacks(trust, env, r => true, log, h[k]);
    }
  }

  // What the types and the key of a binding vouch for.

  /**
   In every run in which policies pin the enclave, every accepted action on a binding of these types and this
   key goes back to an accepted request for the key that meets `good`, or to a collision.
   */
  ghost predicate Vouches(trust: Trust, env: Env, good: Request -> bool, source: Source, scheme: Scheme, pk: bytes) {
    forall clock: u64, initial: Pcrs, log: map<Document, Purpose>, h: seq<Entry>, j: nat, b: nat |
      && Reached(env, clock, initial, h) && PinsEnclave(trust, env.sha256, log, initial, h)
      && AcceptedOn(h, j, b) && h[b].source == source && h[b].scheme == scheme && h[b].pk == pk ::
      exists k: nat :: k < b && Backs(trust, env.sha256, good, log, h[k], pk)
  }

  /** What is behind an accepted action on a binding of the repository's own sources. */
  lemma BackedByDocument(env: Env, clock: u64, initial: Pcrs, h: seq<Entry>, j: nat, b: nat) returns (k: nat)
    requires Reached(env, clock, initial, h) && AcceptedOn(h, j, b) && !h[b].source.ForeignSource?
    ensures k < b && Genuine(env, initial, h, k, h[b].source, h[b].pk) && Sound(env, h[k])
  {
    hide Reached, Signed, Outstanding, InOrder, UsedOnce, BindingsRecorded, ActionsBacked, PoliciesInForce, PcrsMatch,
      PolicyAfter, Encode, ActionMessages.CanonicalMessage;
    AcceptedActionsAuthorized(env, clock, initial, h, j);
    var i: nat, c: nat, s: nat :| Authorized(env, initial, h, j, i, c, s);
    OneBinding(env, clock, initial, h, j, b, c);
    var w := ReachedWorld(env, clock, initial, h);
    assert Sound(env, h[i]);
    k := i;
  }

  lemma OnlyGoodIsNative(trust: Trust, sha256: bytes -> Digest, good: Request -> bool, source: Source, pk: bytes)
    requires OnlyGood(trust, sha256, good, source, pk)
    ensures !source.ForeignSource?
  {
  }

  lemma OnlyGoodVouches(trust: Trust, env: Env, good: Request -> bool, source: Source, scheme: Scheme, pk: bytes)
    requires OnlyGood(trust, env.sha256, good, source, pk)
    ensures Vouches(trust, env, good, source, scheme, pk)
  {
    hide Reached, Encode, PolicyAfter, PcrsMatch, MadeFor, Backs, OnlyGood;
    forall clock: u64, initial: Pcrs, log: map<Document, Purpose>, h: seq<Entry>, j: nat, b: nat |
      && Reached(env, clock, initial, h) && PinsEnclave(trust, env.sha256, log, initial, h)
      && AcceptedOn(h, j, b) && h[b].source == source && h[b].scheme == scheme && h[b].pk == pk
      ensures exists k: nat :: k < b && Backs(trust, env.sha256, good, log, h[k], pk)
    {
      OnlyGoodIsNative(trust, env.sha256, good, source, pk);
      var k := BackedByDocument(env, clock, initial, h, j, b);
      DocumentBacks(trust, env, good, log, h[k]);
    }
  }

  /** The first step of a run, with which a source comes to stand for a key. */
  ghost predicate Starts(env: Env, initial: Pcrs, first: Action, source: Source, pk: bytes) {
    match first
    case AttestVerify(s, doc, p) =>
      s == source && Takes(s, p) && AttestedKey(p) == pk && Accepts(env.sha256, initial, doc, p, 0)
    case IssueWitness(issued) => issued.source == source && source.ForeignSource? && issued.attestedValue == pk
    case _ => false
  }

  /** From such a step on, a key that can act gets an action accepted. */
  lemma StartedRun(env: Env, initial: Pcrs, first: Action, source: Source, scheme: Scheme, pk: bytes)
    returns (h: seq<Entry>)
    requires Starts(env, initial, first, source, pk) && CanAct(env, scheme, pk)
    ensures Reached(env, 0, initial, h) && AcceptedOn(h, 3, 1) && |h| == 4
    ensures h[1].source == source && h[1].scheme == scheme && h[1].pk == pk
    ensures forall i | 1 <= i < 4 :: !h[i].Attested?
    ensures h[0] == match first
                    case AttestVerify(_, doc, p) => Attested(0, source, initial, doc, p)
                    case _ => WitnessIssued(0, first.issued)
  {
    hide Run, Accepts, CanAct, Encode, ActionMessages.CanonicalMessage;
    var w := Init(0, initial);
    RunOne(env, w, first);
    var v := Run(env, w, [first]).value;
    var rest := WitnessActs(env, v, scheme);
    RunConcat(env, w, [first], rest);
    h := Run(env, v, rest).value.history;
    assert Run(env, w, [first] + rest).value.history == h;
  }

  /** A document that the pinned enclave could have made for this payload at time 0. */
  function DocumentFor(env: Env, pinned: Pcrs, p: Payload): Document {
    Document([PcrEntry(0, pinned.pcr0), PcrEntry(1, pinned.pcr1), PcrEntry(2, pinned.pcr2)],
             Some(env.sha256(Encode(p))), 0, Some([]))
  }

  lemma DocumentAccepted(env: Env, pinned: Pcrs, p: Payload)
    ensures Accepts(env.sha256, pinned, DocumentFor(env, pinned, p), p, 0)
  {
    hide Encode;
    var pcrs := DocumentFor(env, pinned, p).pcrs;
    assert pcrs[0] in pcrs && pcrs[1] in pcrs && pcrs[2] in pcrs;
  }

  lemma RegistrationHasNoPayload(trust: Trust, sha256: bytes -> Digest, purpose: Purpose)
    requires PayloadFor(trust, sha256, purpose).Some?
    ensures purpose != Registration
  {
  }

  lemma NotVouched(trust: Trust, env: Env, good: Request -> bool, source: Source, scheme: Scheme, pk: bytes,
                   clock: u64, initial: Pcrs, log: map<Document, Purpose>, h: seq<Entry>, j: nat, b: nat)
    requires Reached(env, clock, initial, h) && PinsEnclave(trust, env.sha256, log, initial, h)
    requires AcceptedOn(h, j, b) && h[b].source == source && h[b].scheme == scheme && h[b].pk == pk
    requires forall k: nat | k < b :: !Backs(trust, env.sha256, good, log, h[k], pk)
    ensures !Vouches(trust, env, good, source, scheme, pk)
  {
    hide Reached, PinsEnclave, Backs;
  }

  /** A purpose whose document this source takes but that is not good gives a run that does not vouch. */
  lemma BadPurpose(trust: Trust, env: Env, good: Request -> bool, source: Source, scheme: Scheme, pk: bytes,
                   purpose: Purpose)
    requires CanAct(env, scheme, pk) && PayloadFor(trust, env.sha256, purpose).Some?
    requires var p := PayloadFor(trust, env.sha256, purpose).value;
             Takes(source, p) && AttestedKey(p) == pk
    requires purpose.ForRequest? ==> !good(purpose.request)
    ensures !Vouches(trust, env, good, source, scheme, pk)
  {
    hide Reached, Encode, PayloadFor, PcrsMatch, Attests, CanAct, Vouches;
    var p := PayloadFor(trust, env.sha256, purpose).value;
    var initial := Pcrs([], [], []);
    var doc := DocumentFor(env, initial, p);
    DocumentAccepted(env, initial, p);
    var h := StartedRun(env, initial, AttestVerify(source, doc, p), source, scheme, pk);
    var log := map[doc := purpose];
    assert PinsEnclave(trust, env.sha256, log, initial, h) by {
      RegistrationHasNoPayload(trust, env.sha256, purpose);
    }
    assert !Backs(trust, env.sha256, good, log, h[0], pk);
    NotVouched(trust, env, good, source, scheme, pk, 0, initial, log, h, 3, 1);
  }

  lemma ForeignSourceVouchesNot(trust: Trust, env: Env, good: Request -> bool, source: Source, scheme: Scheme,
                                pk: bytes)
    requires source.ForeignSource? && CanAct(env, scheme, pk)
    ensures !Vouches(trust, env, good, source, scheme, pk)
  {
    hide Reached, CanAct, Vouches;
    var initial := Pcrs([], [], []);
    var h := StartedRun(env, initial, IssueWitness(Witness(source, pk, [], 0, [])), source, scheme, pk);
    NotVouched(trust, env, good, source, scheme, pk, 0, initial, map[], h, 3, 1);
  }

  lemma AssertedKey(trust: Trust, sha256: bytes -> Digest, obj: bytes, clientData: bytes, key: bytes, appId: bytes,
                    clockMs: u64)
    requires AppAssertions.Verify(trust.ecdsa, sha256, obj, clientData, key, appId, clockMs).Some?
    ensures PayloadFor(trust, sha256, ForAssertion(obj, clientData, key, appId, clockMs))
         == Some(Assertion(key, clientData))
  {
  }

  lemma CannotActVouches(trust: Trust, env: Env, good: Request -> bool, source: Source, scheme: Scheme, pk: bytes)
    requires !CanAct(env, scheme, pk)
    ensures Vouches(trust, env, good, source, scheme, pk)
  {
    hide Reached, PinsEnclave, CanAct, Genuine, Backs;
    forall clock: u64, initial: Pcrs, log: map<Document, Purpose>, h: seq<Entry>, j: nat, b: nat |
      && Reached(env, clock, initial, h) && PinsEnclave(trust, env.sha256, log, initial, h)
      && AcceptedOn(h, j, b) && h[b].source == source && h[b].scheme == scheme && h[b].pk == pk
      ensures false
    {
      AcceptedActed(env, clock, initial, h, j, b);
    }
  }

  /**
   For every notion of a good request: the types and the key of a binding vouch for one exactly when the key
   cannot act at all, or the source is an attestation source and every accepted request for the key is good,
   or it is the assertion source and no assertion by the key is accepted. An assertion names its own key, so a
   key that can sign one is vouched for by nobody.
   */
  lemma VouchesExactly(trust: Trust, env: Env, good: Request -> bool, source: Source, scheme: Scheme, pk: bytes)
    ensures Vouches(trust, env, good, source, scheme, pk)
            <==> OnlyGood(trust, env.sha256, good, source, pk) || !CanAct(env, scheme, pk)
  {
    hide Vouches, CanAct, VerifyRequest, AppAssertions.Verify;
    if OnlyGood(trust, env.sha256, good, source, pk) {
      OnlyGoodVouches(trust, env, good, source, scheme, pk);
    } else if !CanAct(env, scheme, pk) {
      CannotActVouches(trust, env, good, source, scheme, pk);
    } else if source.ForeignSource? {
      ForeignSourceVouchesNot(trust, env, good, source, scheme, pk);
    } else if source == AppleAssertion {
      var obj: bytes, clientData: bytes, appId: bytes, clockMs: u64 :|
        AppAssertions.Verify(trust.ecdsa, env.sha256, obj, clientData, pk, appId, clockMs).Some?;
      AssertedKey(trust, env.sha256, obj, clientData, pk, appId, clockMs);
      BadPurpose(trust, env, good, source, scheme, pk, ForAssertion(obj, clientData, pk, appId, clockMs));
    } else {
      var r :| Attests(trust, env.sha256, r, pk) && !good(r);
      BadPurpose(trust, env, good, source, scheme, pk, ForRequest(r));
    }
  }

  /** Requests that attest a key in hardware: Apple's, and Android's whose description says so. */
  predicate InHardware(trust: Trust, r: Request) {
    r.Apple? || AndroidVerifier.InHardware(trust.android, r.chain, r.clockMs)
  }

  /**
   A key is vouched for as one of Apple's exactly when no Android request attests it, and as one in hardware
   exactly when no Android request attests it at software level: the requester chooses the policy, and the
   document does not say which platform it was.
   */
  lemma AttestationVouchesExactly(trust: Trust, env: Env, source: Source, scheme: Scheme, pk: bytes)
    requires IsAttestation(source) && CanAct(env, scheme, pk)
    ensures Vouches(trust, env, r => true, source, scheme, pk)
    ensures Vouches(trust, env, (r: Request) => r.Apple?, source, scheme, pk)
            <==> forall r | Attests(trust, env.sha256, r, pk) :: r.Apple?
    ensures Vouches(trust, env, r => InHardware(trust, r), source, scheme, pk)
            <==> forall r | Attests(trust, env.sha256, r, pk) :: InHardware(trust, r)
  {
    hide Vouches, CanAct, Attests, InHardware;
    VouchesExactly(trust, env, r => true, source, scheme, pk);
    VouchesExactly(trust, env, (r: Request) => r.Apple?, source, scheme, pk);
    VouchesExactly(trust, env, r => InHardware(trust, r), source, scheme, pk);
  }

  /** Whoever can sign with a key, in whatever hardware, can have an assertion by it accepted. */
  lemma SignersCanAssert(trust: Trust, sha256: bytes -> Digest, key: bytes, signature: bytes, authData: bytes,
                         clientData: bytes, appId: bytes)
    requires |signature| < Cbor.ARGUMENT_LIMIT && |authData| < Cbor.ARGUMENT_LIMIT
    requires AppAssertions.Signs(trust.ecdsa, sha256, key, signature, authData, clientData, appId)
    ensures CanAssert(trust, sha256, key)
  {
    hide AppAssertions.Verify;
    AppAssertions.AssertionExact(trust.ecdsa, sha256, signature, authData, clientData, key, appId, 0);
    var obj := Cbor.Encode(AppAssertions.AssertionValue(signature, authData));
    assert AppAssertions.Verify(trust.ecdsa, sha256, obj, clientData, key, appId, 0).Some?;
  }

  /** A document says nothing of the policy: made under any, it is made under the one that checks nothing. */
  lemma PolicyNotInDocument(trust: Trust, sha256: bytes -> Digest, doc: Document, chain: seq<bytes>, challenge: bytes,
                            clockMs: u64)
    ensures (exists p: AndroidVerifier.Policy ::
               MadeFor(trust, sha256, doc, ForRequest(Android(chain, challenge, p, clockMs))))
            <==> MadeFor(trust, sha256, doc, ForRequest(Android(chain, challenge, AndroidVerifier.PERMISSIVE, clockMs)))
  {
    hide Encode, AndroidVerifier.Verify;
    forall p: AndroidVerifier.Policy | MadeFor(trust, sha256, doc, ForRequest(Android(chain, challenge, p, clockMs)))
      ensures MadeFor(trust, sha256, doc, ForRequest(Android(chain, challenge, AndroidVerifier.PERMISSIVE, clockMs)))
    {
      var o := AndroidVerifier.Verify(trust.android, sha256, chain, challenge, p, clockMs).value;
      AndroidVerifier.SomePolicyExactly(trust.android, sha256, chain, challenge, clockMs, o);
    }
  }

  // The key that the signature was checked under.

  /** Public keys come out of the X.509 decoder as DER, whose first octet says SEQUENCE. */
  ghost predicate DerKeys(pki: Chains.Pki) {
    forall der | pki.parse(der).Some? :: pki.parse(der).value.spki != [] && pki.parse(der).value.spki[0] == 0x30
  }

  lemma AppleAttestsPoint(pki: Chains.Pki, root: Chains.Certificate, sha256: bytes -> Digest, obj: bytes,
                          e: AppAttest.Expectation, clockMs: u64)
    requires AppAttest.Verify(pki, root, sha256, obj, e, clockMs).Some?
    ensures PointForm(AppAttest.Verify(pki, root, sha256, obj, e, clockMs).value.attestedValue)
  {
    hide AppAttest.AttestationObjects.ParseAttestationObject, AppAttest.AuthData.Parse, Chains.AppleLeaf,
      AppAttest.Nonce, AppAttest.Expected, CoseKeys.ParseKey;
    var stmt := AppAttest.AttestationObjects.ParseAttestationObject(obj).value;
    CoseKeys.ParsedKeyForm(AppAttest.AuthData.Parse(stmt.authData).value.credentialPublicKey);
  }

  lemma AndroidAttestsSpki(pki: Chains.Pki, sha256: bytes -> Digest, chain: seq<bytes>, challenge: bytes,
                           policy: AndroidVerifier.Policy, clockMs: u64)
    requires DerKeys(pki) && AndroidVerifier.Verify(pki, sha256, chain, challenge, policy, clockMs).Some?
    ensures var pk := AndroidVerifier.Verify(pki, sha256, chain, challenge, policy, clockMs).value.attestedValue;
            pk != [] && pk[0] == 0x30
  {
    hide Chains.AllInWindow, Chains.Linked, Chains.Anchored, AndroidVerifier.Admits, AndroidVerifier.NotRevoked,
      KeyDescriptions.ParseKeyDescription, Revocation.ChainBuffer;
    assert pki.parse(chain[0]).Some?;
  }

  /** An attested value has the form that the ECDSA verifiers are written for exactly when Apple attested it. */
  lemma PointFormIsApple(trust: Trust, sha256: bytes -> Digest, r: Request)
    requires DerKeys(trust.android) && VerifyRequest(trust, sha256, r).Some?
    ensures PointForm(VerifyRequest(trust, sha256, r).value.attestedValue) <==> r.Apple?
  {
    match r
    case Apple(obj, expected, clockMs) =>
      AppleAttestsPoint(trust.apple, trust.appleRoot, sha256, obj, expected, clockMs);
    case Android(chain, challenge, policy, clockMs) =>
      AndroidAttestsSpki(trust.android, sha256, chain, challenge, policy, clockMs);
  }

  /** The curve of an ECDSA verifier. */
  function CurveOf(scheme: Scheme): Curve
    requires scheme == Secp256r1 || scheme == Secp256k1
  {
    if scheme == Secp256r1 then P256 else K256
  }

  /**
   What a signature of the bound key proves when the key was attested for the point `a`, as the point itself
   or as its SubjectPublicKeyInfo: the native check ran under octets that stand for `a` exactly when `a` is a
   point of the curve of the scheme and the bound value is the point, save for one X coordinate and one
   parity; and they stand for no other point.
   */
  lemma SignatureUnderDeviceKey(env: Env, h: seq<Entry>, s: nat, scheme: Scheme, a: bytes, pk: bytes, message: bytes)
    requires PointForm(a) && (pk == a || pk == Spki(a))
    requires scheme == Secp256r1 || scheme == Secp256k1
    requires Signed(env, h, s, scheme, pk, message)
    ensures var key, curve := NativeKey(scheme, pk).value, CurveOf(scheme);
            && env.native(scheme, key, message, h[s].signature)
            && (Means(curve, key, a)
                <==> OnCurve(curve.p, curve.f, a)
                     && (PointForm(pk) || (a[1..33] == HeaderX() && a[38] % 2 == a[64] % 2)))
            && (Prime(curve.p) && Means(curve, key, a) ==> forall c: bytes | Means(curve, key, c) :: c == a)
  {
    hide Compressed, Prime, OnCurve, HeaderX;
    var key, curve := NativeKey(scheme, pk).value, CurveOf(scheme);
    BoundKeyMeans(curve, a, pk);
    forall c: bytes | Prime(curve.p) && Means(curve, key, a) && Means(curve, key, c) ensures c == a {
      MeansOnePoint(curve, key, a, c);
    }
  }

  /** The 12 octets before an Ed25519 key in its SubjectPublicKeyInfo (section 4 of RFC 8410). */
  const ED25519_SPKI_HEADER: bytes := [0x30, 0x2A, 0x30, 0x05, 0x06, 0x03, 0x2B, 0x65, 0x70, 0x03, 0x21, 0x00]

  /** For Ed25519 likewise: the check runs under the device's key exactly when that is what was attested. */
  lemma Ed25519UnderDeviceKey(key: bytes, pk: bytes)
    requires |key| == 32 && (pk == key || pk == ED25519_SPKI_HEADER + key)
    ensures NativeKey(Ed25519, pk) == Some(key) <==> |pk| == 32
  {
  }

  /** Two devices attested by SubjectPublicKeyInfo stand for each other when six octets and a parity agree. */
  lemma SpkiSignaturesShared(env: Env, scheme: Scheme, a: bytes, b: bytes, message: bytes, signature: bytes)
    requires PointForm(a) && PointForm(b) && a[1..7] == b[1..7] && a[38] % 2 == b[38] % 2
    requires scheme == Secp256r1 || scheme == Secp256k1
    ensures SignatureValid(env, scheme, Spki(a), message, signature)
            <==> SignatureValid(env, scheme, Spki(b), message, signature)
  {
    hide Compressed;
    SpkiCollideExactly(a, b);
  }

  /** The key was attested by Apple, and the signature behind the action is one under that key. */
  ghost predicate UnderAppleKey(trust: Trust, env: Env, log: map<Document, Purpose>, h: seq<Entry>, j: nat, k: nat,
                                pk: bytes, s: nat)
    requires j < |h| && h[j].ActionChecked? && k < |h| && s < |h| && PointForm(pk)
  {
    && Backs(trust, env.sha256, (r: Request) => r.Apple?, log, h[k], pk)
    && h[s].SignatureChecked?
    && env.native(Secp256r1, Compressed(pk), MessageOf(h[j]), h[s].signature)
    && (OnCurve(P256.p, P256.f, pk) ==> Means(P256, Compressed(pk), pk))
    && (Prime(P256.p) && OnCurve(P256.p, P256.f, pk) ==> forall c: bytes | Means(P256, Compressed(pk), c) :: c == pk)
  }

  lemma BackedByApple(trust: Trust, env: Env, log: map<Document, Purpose>, e: Entry, pk: bytes)
    requires DerKeys(trust.android) && PointForm(pk)
    requires Backs(trust, env.sha256, r => true, log, e, pk)
    ensures Backs(trust, env.sha256, (r: Request) => r.Apple?, log, e, pk)
  {
    hide Encode, VerifyRequest;
    if log[e.doc].ForRequest? && Attests(trust, env.sha256, log[e.doc].request, pk) {
      PointFormIsApple(trust, env.sha256, log[e.doc].request);
    }
  }

  /**
   So a consumer who checks that the source is an attestation source, the scheme secp256r1, and the bound key
   65 octets starting with 04 knows: an accepted App Attest request attested that key, and the native check of
   the accepted action ran under octets that stand for it, if it is a point of P-256, and for no other point.
   */
  lemma GuardedActionsApple(trust: Trust, env: Env, log: map<Document, Purpose>,
                            clock: u64, initial: Pcrs, h: seq<Entry>, j: nat)
    requires Reached(env, clock, initial, h) && PinsEnclave(trust, env.sha256, log, initial, h)
    requires DerKeys(trust.android)
    requires j < |h| && h[j].ActionChecked? && h[j].result
    ensures exists k: nat, b: nat, s: nat ::
              && Authorized(env, initial, h, j, k, b, s)
              && (IsAttestation(h[b].source) && h[b].scheme == Secp256r1 && PointForm(h[b].pk) ==>
                    UnderAppleKey(trust, env, log, h, j, k, h[b].pk, s))
  {
    hide Reached, Encode, PinsEnclave, Genuine, ActionMessages.CanonicalMessage, Compressed, Prime, OnCurve, Backs;
    AcceptedActionsAttested(trust, env, log, clock, initial, h, j);
    var k: nat, b: nat, s: nat :|
      && Authorized(env, initial, h, j, k, b, s)
      && (IsAttestation(h[b].source) ==> Backs(trust, env.sha256, r => true, log, h[k], h[b].pk));
    var pk := h[b].pk;
    if IsAttestation(h[b].source) && h[b].scheme == Secp256r1 && PointForm(pk) {
      SignatureUnderDeviceKey(env, h, s, Secp256r1, pk, pk, MessageOf(h[j]));
      BackedByApple(trust, env, log, h[k], pk);
    }
  }

  /** On these types the form of the key vouches for Apple: that guard needs nothing but the bound key. */
  lemma PointFormVouches(trust: Trust, env: Env, source: Source, scheme: Scheme, pk: bytes)
    requires DerKeys(trust.android) && IsAttestation(source) && PointForm(pk)
    ensures Vouches(trust, env, (r: Request) => r.Apple?, source, scheme, pk)
  {
    hide Vouches, VerifyRequest, CanAct;
    forall r | Attests(trust, env.sha256, r, pk) ensures r.Apple? {
      PointFormIsApple(trust, env.sha256, r);
    }
    VouchesExactly(trust, env, (r: Request) => r.Apple?, source, scheme, pk);
  }
}
