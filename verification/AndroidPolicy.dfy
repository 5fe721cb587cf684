/** The Android verifier: chain, revocation, key description, challenge and policy, in that order. */
module AndroidVerifier {
  import opened Bytes
  import opened Bcs
  import opened Chains
  import opened KeyDescriptions
  import opened StatusLists
  import Outcomes
  import Der
  import KeyDescriptionEncoding
  import Revocation

  datatype Policy = Policy(
    minSecurityLevel: SecurityLevel,
    requireVerifiedBoot: bool,
    allowedSelfSignedKeys: seq<bytes>,
    requireDeviceLocked: bool,
    statusList: Option<map<bytes, StatusEntry>>)

  const ANDROID_KEY_ATTEST: bytes := Ascii("android-key-attest")

  /** The acceptance matrix for a boot state and its key. */
  predicate BootStateAllowed(policy: Policy, rot: RootOfTrust) {
    match rot.verifiedBootState
    case Verified => true
    case SelfSigned =>
      !policy.requireVerifiedBoot
      && (policy.allowedSelfSignedKeys == [] || rot.verifiedBootKey in policy.allowedSelfSignedKeys)
    case Unverified => !policy.requireVerifiedBoot && policy.allowedSelfSignedKeys == []
    case Failed => !policy.requireVerifiedBoot && policy.allowedSelfSignedKeys == []
  }

  /** Only the hardware-enforced root of trust counts; without one, verified boot cannot be required. */
  predicate BootAllowed(policy: Policy, rot: Option<RootOfTrust>) {
    match rot
    case None => !policy.requireVerifiedBoot
    case Some(r) => (policy.requireDeviceLocked ==> r.deviceLocked) && BootStateAllowed(policy, r)
  }

  /** Both the attestation and the key it describes meet the minimum level, and the boot is allowed. */
  predicate Admits(policy: Policy, kd: KeyDescription) {
    && kd.attestationSecurityLevel.Meets(policy.minSecurityLevel)
    && kd.keymintSecurityLevel.Meets(policy.minSecurityLevel)
    && BootAllowed(policy, kd.hardwareEnforced.rootOfTrust)
  }

  /** With a list supplied, no certificate of the chain has its serial's form in it. */
  predicate NotRevoked(policy: Policy, certs: seq<Certificate>) {
    policy.statusList.Some? ==>
      forall c | c in certs :: Revocation.SerialHex(c.serial) !in policy.statusList.value
  }

  function Verify(pki: Pki, sha256: bytes -> Digest, chain: seq<bytes>, challenge: bytes, policy: Policy, clockMs: u64)
    : Option<Outcomes.Outcome>
  {
    var leaf :- AndroidLeaf(pki, chain, clockMs);
    var certs :- ParseAll(pki.parse, chain);
    var ext :- if NotRevoked(policy, certs) then leaf.keyDescription else None;
    var kd :- ParseKeyDescription(ext);
    if kd.attestationChallenge != challenge || !Admits(policy, kd) then None
    else Some(Outcomes.Outcome(ANDROID_KEY_ATTEST, leaf.spki, challenge, clockMs,
                               sha256(Revocation.ChainBuffer(chain))))
  }

  /** The revocation loop, which parses each certificate again. */
  method CheckChainStatus(parse: bytes -> Option<Certificate>, chain: seq<bytes>, list: map<bytes, StatusEntry>)
    returns (ok: bool)
    requires ParseAll(parse, chain).Some?
    ensures ok <==> forall c | c in ParseAll(parse, chain).value :: Revocation.SerialHex(c.serial) !in list
  {
    hide Revocation.SerialHex;
    ghost var certs := ParseAll(parse, chain).value;
    for i := 0 to |chain|
      invariant forall j | 0 <= j < i :: Revocation.SerialHex(certs[j].serial) !in list
    {
      var cert := parse(chain[i]);
      assert cert == Some(certs[i]);
      var clear := Revocation.CheckStatus(cert.value.serial, list);
      if !clear {
        assert certs[i] in certs;
        return false;
      }
    }
    return true;
  }

  /** The `match` on the boot state, arm by arm as written. */
  method CheckBootState(policy: Policy, rot: RootOfTrust) returns (ok: bool)
    ensures ok <==> BootStateAllowed(policy, rot)
  {
    if rot.verifiedBootState == Verified {
      return true;
    }
    if !policy.requireVerifiedBoot && policy.allowedSelfSignedKeys == [] {
      return true;
    }
    if rot.verifiedBootState == SelfSigned && !policy.requireVerifiedBoot {
      for i := 0 to |policy.allowedSelfSignedKeys|
        invariant forall j | 0 <= j < i :: policy.allowedSelfSignedKeys[j] != rot.verifiedBootKey
      {
        if policy.allowedSelfSignedKeys[i] == rot.verifiedBootKey {
          return true;
        }
      }
    }
    return false;
  }

  /** `verify_attestation`. */
  method VerifyAttestation(pki: Pki, sha256: bytes -> Digest, chain: seq<bytes>, challenge: bytes,
                           policy: Policy, clockMs: u64)
    returns (r: Option<Outcomes.Outcome>)
    ensures r == Verify(pki, sha256, chain, challenge, policy, clockMs)
  {
    hide ParseAll, AndroidAccepts, ParseKeyDescription, BootStateAllowed;
    var leaf := ValidateChain(pki, chain, clockMs);
    if leaf.None? {
      return None;
    }
    if policy.statusList.Some? {
      var clear := CheckChainStatus(pki.parse, chain, policy.statusList.value);
      if !clear {
        return None;
      }
    }
    if leaf.value.keyDescription.None? {
      return None;
    }
    var kd := FromDer(leaf.value.keyDescription.value);
    if kd.None? || kd.value.attestationChallenge != challenge {
      return None;
    }
    if !kd.value.attestationSecurityLevel.Meets(policy.minSecurityLevel)
       || !kd.value.keymintSecurityLevel.Meets(policy.minSecurityLevel)
    {
      return None;
    }
    var rot := kd.value.hardwareEnforced.rootOfTrust;
    if rot.Some? {
      if policy.requireDeviceLocked && !rot.value.deviceLocked {
        return None;
      }
      var ok := CheckBootState(policy, rot.value);
      if !ok {
        return None;
      }
    } else if policy.requireVerifiedBoot {
      return None;
    }
    var buf := Revocation.CanonicalChainHashInput(chain);
    return Some(Outcomes.Outcome(ANDROID_KEY_ATTEST, leaf.value.spki, challenge, clockMs, sha256(buf)));
  }

  // What acceptance means.

  /** How the repository's documentation tells the levels apart: 0 software, 1 TEE, 2 StrongBox. */
  function LevelNumber(level: SecurityLevel): nat {
    if level == Software then 0 else if level == TrustedEnvironment then 1 else 2
  }

  /** The documented acceptance matrix of boot states, and the two levels. */
  lemma AdmitsExactly(policy: Policy, kd: KeyDescription)
    ensures Admits(policy, kd) <==>
              && LevelNumber(kd.attestationSecurityLevel) >= LevelNumber(policy.minSecurityLevel)
              && LevelNumber(kd.keymintSecurityLevel) >= LevelNumber(policy.minSecurityLevel)
              && match kd.hardwareEnforced.rootOfTrust {
                case None => !policy.requireVerifiedBoot
                case Some(rot) =>
                  && (rot.deviceLocked || !policy.requireDeviceLocked)
                  && (|| rot.verifiedBootState == Verified
                      || (!policy.requireVerifiedBoot && policy.allowedSelfSignedKeys == [])
                      || (!policy.requireVerifiedBoot && rot.verifiedBootState == SelfSigned
                          && exists i | 0 <= i < |policy.allowedSelfSignedKeys| ::
                               policy.allowedSelfSignedKeys[i] == rot.verifiedBootKey))
              }
  {
    forall x: bytes, ks: seq<bytes> | x in ks ensures exists i | 0 <= i < |ks| :: ks[i] == x {
    }
  }

  /** No certificate of a chain that parses has the form of its serial among the keys of the list, if there is one. */
  ghost predicate NoneListed(pki: Pki, chain: seq<bytes>, list: Option<map<bytes, StatusEntry>>) {
    list.Some? ==>
      forall i | 0 <= i < |chain| && pki.parse(chain[i]).Some? ::
        Revocation.SerialHex(pki.parse(chain[i]).value.serial) !in list.value
  }

  lemma ListedInChain(pki: Pki, chain: seq<bytes>, policy: Policy)
    requires ParseAll(pki.parse, chain).Some?
    ensures NotRevoked(policy, ParseAll(pki.parse, chain).value) <==> NoneListed(pki, chain, policy.statusList)
  {
    hide Revocation.SerialHex;
    var certs := ParseAll(pki.parse, chain).value;
    assert forall i | 0 <= i < |certs| :: certs[i] in certs && certs[i] == pki.parse(chain[i]).value;
  }

  /** The extension of the leaf is the encoding of this description, and perhaps more octets after it. */
  ghost predicate Carries(leaf: Certificate, kd: KeyDescription) {
    exists rest: bytes ::
      && KeyDescriptionEncoding.Encodable(kd)
      && |KeyDescriptionEncoding.EncodeKeyDescription(kd) + rest| <= Der.MAX_LENGTH
      && leaf.keyDescription == Some(KeyDescriptionEncoding.EncodeKeyDescription(kd) + rest)
  }

  lemma CarriedDescription(leaf: Certificate, kd: KeyDescription)
    requires Carries(leaf, kd)
    ensures leaf.keyDescription.Some? && ParseKeyDescription(leaf.keyDescription.value) == Some(kd)
  {
    hide KeyDescriptionEncoding.Encodable, KeyDescriptionEncoding.EncodeKeyDescription, ParseKeyDescription;
    var rest: bytes :|
      && KeyDescriptionEncoding.Encodable(kd)
      && |KeyDescriptionEncoding.EncodeKeyDescription(kd) + rest| <= Der.MAX_LENGTH
      && leaf.keyDescription == Some(KeyDescriptionEncoding.EncodeKeyDescription(kd) + rest);
    KeyDescriptionEncoding.KeyDescriptionRoundTrip(kd, rest);
  }

  /**
   An accepted chain whose leaf carries the encoding of a description: the verifier accepts exactly when the
   description's challenge is the one presented, the policy admits it, and no serial of the chain is listed;
   and these are the five fields of the outcome.
   */
  lemma DescribedAcceptance(pki: Pki, sha256: bytes -> Digest, chain: seq<bytes>, challenge: bytes, policy: Policy,
                            clockMs: u64, leaf: Certificate, kd: KeyDescription)
    requires AndroidLeaf(pki, chain, clockMs) == Some(leaf)
    requires Carries(leaf, kd)
    ensures Verify(pki, sha256, chain, challenge, policy, clockMs)
         == if kd.attestationChallenge == challenge && Admits(policy, kd) && NoneListed(pki, chain, policy.statusList)
            then Some(Outcomes.Outcome(ANDROID_KEY_ATTEST, leaf.spki, challenge, clockMs,
                                       sha256(Revocation.ChainBuffer(chain))))
            else None
  {
    hide Carries, ParseKeyDescription, ParseAll, Admits, Revocation.SerialHex, Revocation.ChainBuffer, AndroidAccepts;
    CarriedDescription(leaf, kd);
    ParsedAt(pki, chain);
    ListedInChain(pki, chain, policy);
  }

  /** One chain answers one challenge, under whatever policies and at whatever times. */
  lemma OneChainOneChallenge(pki: Pki, sha256: bytes -> Digest, chain: seq<bytes>, c1: bytes, p1: Policy, t1: u64,
                             c2: bytes, p2: Policy, t2: u64)
    requires Verify(pki, sha256, chain, c1, p1, t1).Some? && Verify(pki, sha256, chain, c2, p2, t2).Some?
    ensures c1 == c2
  {
    hide ParseKeyDescription, ParseAll, Admits, NotRevoked, AndroidAccepts, Revocation.ChainBuffer;
  }

  // Policies compared.

  /** `q` asks at least as much as `p` of every key description. */
  predicate Refines(q: Policy, p: Policy) {
    && q.minSecurityLevel.Meets(p.minSecurityLevel)
    && (p.requireVerifiedBoot ==> q.requireVerifiedBoot)
    && (p.requireDeviceLocked ==> q.requireDeviceLocked)
    && (q.requireVerifiedBoot || p.allowedSelfSignedKeys == []
        || (q.allowedSelfSignedKeys != [] && forall k | k in q.allowedSelfSignedKeys :: k in p.allowedSelfSignedKeys))
  }

  function Describe(level: SecurityLevel, rot: Option<RootOfTrust>): KeyDescription {
    var none := AuthorizationList(None, None, None, None, None);
    KeyDescription(0, level, 0, level, [], [], none, none.(rootOfTrust := rot))
  }

  lemma RefinementNecessary(q: Policy, p: Policy)
    requires forall kd :: Admits(q, kd) ==> Admits(p, kd)
    ensures Refines(q, p)
  {
    var level := q.minSecurityLevel;
    var green := RootOfTrust([], true, Verified, None);
    assert Admits(q, Describe(level, Some(green)));
    assert Admits(q, Describe(level, Some(green.(deviceLocked := q.requireDeviceLocked))));
    if !q.requireVerifiedBoot {
      assert Admits(q, Describe(level, None));
      if q.allowedSelfSignedKeys == [] {
        assert Admits(q, Describe(level, Some(green.(verifiedBootState := Unverified))));
      } else {
        forall k | k in q.allowedSelfSignedKeys && p.allowedSelfSignedKeys != []
          ensures k in p.allowedSelfSignedKeys
        {
          assert Admits(q, Describe(level, Some(RootOfTrust(k, true, SelfSigned, None))));
        }
      }
    }
  }

  /**
   One policy accepts no more than another exactly when it refines it: a level at least as high, no
   requirement dropped, and, unless it requires verified boot, a shrunken but still non-empty
   allow-list. An empty allow-list is therefore the most permissive one.
   */
  lemma RefinementExact(q: Policy, p: Policy)
    ensures (forall kd :: Admits(q, kd) ==> Admits(p, kd)) <==> Refines(q, p)
  {
    if forall kd :: Admits(q, kd) ==> Admits(p, kd) {
      RefinementNecessary(q, p);
    }
  }

  /** Every description that the policy admits has a locked root of trust. */
  ghost predicate GuaranteesLocked(policy: Policy) {
    forall kd | Admits(policy, kd) ::
      kd.hardwareEnforced.rootOfTrust.Some? && kd.hardwareEnforced.rootOfTrust.value.deviceLocked
  }

  /** Requiring a locked device guarantees one exactly when verified boot is required as well. */
  lemma LockedExactly(policy: Policy)
    requires policy.requireDeviceLocked
    ensures GuaranteesLocked(policy) <==> policy.requireVerifiedBoot
  {
    if !policy.requireVerifiedBoot {
      assert Admits(policy, Describe(policy.minSecurityLevel, None));
    }
  }

  /** Some description with a boot that failed verification is admitted. */
  ghost predicate AdmitsFailedBoot(policy: Policy) {
    exists kd :: Admits(policy, kd) && kd.hardwareEnforced.rootOfTrust.Some?
                 && kd.hardwareEnforced.rootOfTrust.value.verifiedBootState == Failed
  }

  /** An empty allow-list without required verified boot admits not only self-signed but failed boots too. */
  lemma FailedBootExactly(policy: Policy)
    ensures AdmitsFailedBoot(policy) <==> !policy.requireVerifiedBoot && policy.allowedSelfSignedKeys == []
  {
    if !policy.requireVerifiedBoot && policy.allowedSelfSignedKeys == [] {
      var kd := Describe(policy.minSecurityLevel, Some(RootOfTrust([], true, Failed, None)));
      assert Admits(policy, kd) && kd.hardwareEnforced.rootOfTrust.value.verifiedBootState == Failed;
    }
  }

  /** Everything the policy admits is in hardware: neither the attestation nor the key is at software level. */
  ghost predicate GuaranteesHardware(policy: Policy) {
    forall kd | Admits(policy, kd) :: kd.attestationSecurityLevel != Software && kd.keymintSecurityLevel != Software
  }

  lemma HardwareExactly(policy: Policy)
    ensures GuaranteesHardware(policy) <==> policy.minSecurityLevel != Software
  {
    if policy.minSecurityLevel == Software {
      assert Admits(policy, Describe(Software, Some(RootOfTrust([], true, Verified, None))));
    }
  }

  /** `q`'s status list names every serial that `p`'s does. */
  predicate ListsMore(q: Policy, p: Policy) {
    p.statusList.Some? ==> q.statusList.Some? && p.statusList.value.Keys <= q.statusList.value.Keys
  }

  /**
   Tightening a policy never turns rejection into acceptance, for any chain, challenge and clock; and
   what both accept has the same outcome.
   */
  lemma PolicyMonotone(pki: Pki, sha256: bytes -> Digest, chain: seq<bytes>, challenge: bytes,
                       q: Policy, p: Policy, clockMs: u64)
    requires Refines(q, p) && ListsMore(q, p)
    requires Verify(pki, sha256, chain, challenge, q, clockMs).Some?
    ensures Verify(pki, sha256, chain, challenge, p, clockMs) == Verify(pki, sha256, chain, challenge, q, clockMs)
  {
    hide AndroidLeaf, ParseAll, ParseKeyDescription, Admits, Refines, Revocation.SerialHex, Revocation.ChainBuffer;
    var leaf := AndroidLeaf(pki, chain, clockMs).value;
    var kd := ParseKeyDescription(leaf.keyDescription.value).value;
    RefinementExact(q, p);
    assert Admits(q, kd);
  }

  /** The description of the leaf says that attestation and key are in hardware, TEE or StrongBox. */
  predicate InHardware(pki: Pki, chain: seq<bytes>, clockMs: u64) {
    var leaf := AndroidLeaf(pki, chain, clockMs);
    && leaf.Some? && leaf.value.keyDescription.Some?
    && var kd := ParseKeyDescription(leaf.value.keyDescription.value);
    && kd.Some? && kd.value.attestationSecurityLevel != Software && kd.value.keymintSecurityLevel != Software
  }

  /** A policy above software level accepts exactly those in hardware, of all that it would accept without that. */
  lemma LevelInHardware(pki: Pki, sha256: bytes -> Digest, chain: seq<bytes>, challenge: bytes, policy: Policy,
                        clockMs: u64)
    requires policy.minSecurityLevel == TrustedEnvironment
    ensures Verify(pki, sha256, chain, challenge, policy, clockMs)
         == if InHardware(pki, chain, clockMs)
            then Verify(pki, sha256, chain, challenge, policy.(minSecurityLevel := Software), clockMs)
            else None
  {
    hide AndroidLeaf, ParseAll, ParseKeyDescription, Revocation.SerialHex, Revocation.ChainBuffer;
  }

  /** The policy that checks nothing. */
  const PERMISSIVE: Policy := Policy(Software, false, [], false, None)

  /**
   The outcome does not say under which policy it was reached: some policy accepts with it exactly when the
   one that checks nothing does.
   */
  lemma SomePolicyExactly(pki: Pki, sha256: bytes -> Digest, chain: seq<bytes>, challenge: bytes, clockMs: u64,
                          o: Outcomes.Outcome)
    ensures (exists p: Policy :: Verify(pki, sha256, chain, challenge, p, clockMs) == Some(o))
            <==> Verify(pki, sha256, chain, challenge, PERMISSIVE, clockMs) == Some(o)
  {
    hide Verify;
    forall p: Policy | Verify(pki, sha256, chain, challenge, p, clockMs) == Some(o)
      ensures Verify(pki, sha256, chain, challenge, PERMISSIVE, clockMs) == Some(o)
    {
      PolicyMonotone(pki, sha256, chain, challenge, p, PERMISSIVE, clockMs);
    }
  }

  /** Adding entries to the status list never turns rejection into acceptance. */
  lemma MoreEntriesStricter(pki: Pki, sha256: bytes -> Digest, chain: seq<bytes>, challenge: bytes,
                            policy: Policy, more: map<bytes, StatusEntry>, clockMs: u64)
    requires policy.statusList.Some?
    requires Verify(pki, sha256, chain, challenge,
                    policy.(statusList := Some(policy.statusList.value + more)), clockMs).Some?
    ensures Verify(pki, sha256, chain, challenge, policy, clockMs).Some?
  {
    hide Verify;
    var q := policy.(statusList := Some(policy.statusList.value + more));
    PolicyMonotone(pki, sha256, chain, challenge, q, policy, clockMs);
  }

  /** For one chain, challenge and policy the accepting clocks form an interval. */
  lemma AcceptingClocksConvex(pki: Pki, sha256: bytes -> Digest, chain: seq<bytes>, challenge: bytes,
                              policy: Policy, t1: u64, t: u64, t2: u64)
    requires t1 <= t <= t2
    requires Verify(pki, sha256, chain, challenge, policy, t1).Some?
    requires Verify(pki, sha256, chain, challenge, policy, t2).Some?
    ensures Verify(pki, sha256, chain, challenge, policy, t)
         == Some(Verify(pki, sha256, chain, challenge, policy, t1).value.(timestampMs := t))
  {
    hide AndroidLeaf, ParseAll, ParseKeyDescription, Admits, NotRevoked, Revocation.ChainBuffer;
    AndroidAcceptanceInterval(pki, chain, t1, t, t2);
  }

  /**
   Two accepted attestations with one detail hash come from one chain, or exhibit a hash collision,
   when certificates are shorter than 2^32 octets.
   */
  lemma DetailHashCommits(pki: Pki, sha256: bytes -> Digest, a: seq<bytes>, b: seq<bytes>, c1: bytes, c2: bytes,
                          p1: Policy, p2: Policy, t1: u64, t2: u64)
    requires forall c | c in a + b :: |c| < 0x1_0000_0000
    requires var x := Verify(pki, sha256, a, c1, p1, t1);
             var y := Verify(pki, sha256, b, c2, p2, t2);
             x.Some? && y.Some? && x.value.detailHash == y.value.detailHash
    ensures a == b || Collision(sha256, Revocation.ChainBuffer(a), Revocation.ChainBuffer(b))
  {
    hide AndroidLeaf, ParseAll, ParseKeyDescription, Admits, NotRevoked, Revocation.ChainBuffer;
    if Revocation.ChainBuffer(a) == Revocation.ChainBuffer(b) {
      assert forall c | c in a :: c in a + b;
      assert forall c | c in b :: c in a + b;
      Revocation.ChainBufferInjective(a, b);
    }
  }

  lemma SourceName()
    ensures ANDROID_KEY_ATTEST == Ascii("android-key-attest")
  {
  }
}
