/**
 On-chain verification of a Nitro document produced by the enclave: measurements, payload hash,
 freshness, and the witness that is minted. Loading the document (which checks the signature of AWS)
 and SHA-256 are not modelled; an aborted call has no result.
 */
module Nitro {
  import opened Bytes
  import opened Bcs

  const MAX_OUTCOME_AGE_MS: nat := 300_000
  const MAX_CLOCK_SKEW_MS: nat := 30_000
  const U64_LIMIT: nat := 0x1_0000_0000_0000_0000

  datatype PcrEntry = PcrEntry(index: nat, value: bytes)

  datatype Document = Document(pcrs: seq<PcrEntry>, userData: Option<bytes>, timestamp: u64, publicKey: Option<bytes>)

  /** The measurements that the enclave policy pins. */
  datatype Pcrs = Pcrs(pcr0: bytes, pcr1: bytes, pcr2: bytes) {
    function Value(index: nat): bytes
      requires index < 3
    {
      if index == 0 then pcr0 else if index == 1 then pcr1 else pcr2
    }
  }

  /** Source markers: those of the repository's three attestation packages, and any other package's own. */
  datatype Source = AppleAppAttest | AppleAssertion | AndroidKeyAttestation | ForeignSource(name: bytes)

  datatype Witness = Witness(
    source: Source,
    attestedValue: bytes,
    challenge: bytes,
    timestampMs: u64,
    detailHash: bytes)

  /** `ApplePayload` and `AndroidPayload` have the same three fields; `AssertionPayload` has two. */
  datatype Payload =
    | Attestation(attestedValue: bytes, challenge: bytes, detailHash: bytes)
    | Assertion(attestedKey: bytes, clientData: bytes)

  function Encode(p: Payload): bytes {
    match p
    case Attestation(a, c, d) => Vector(a) + (Vector(c) + Vector(d))
    case Assertion(k, c) => Vector(k) + Vector(c)
  }

  /** Every measurement numbered 0, 1 or 2 is the pinned one, and each of the three occurs. */
  predicate PcrsMatch(pinned: Pcrs, pcrs: seq<PcrEntry>) {
    && (forall e | e in pcrs :: e.index < 3 ==> e.value == pinned.Value(e.index))
    && (forall k: nat | k < 3 :: PcrEntry(k, pinned.Value(k)) in pcrs)
  }

  /** `assert_pcrs_match`. */
  method CheckPcrs(pinned: Pcrs, pcrs: seq<PcrEntry>) returns (ok: bool)
    ensures ok <==> PcrsMatch(pinned, pcrs)
  {
    var i := 0;
    var found0, found1, found2 := false, false, false;
    while i < |pcrs|
      invariant i <= |pcrs|
      invariant forall e | e in pcrs[..i] :: e.index < 3 ==> e.value == pinned.Value(e.index)
      invariant found0 <==> exists e | e in pcrs[..i] :: e.index == 0
      invariant found1 <==> exists e | e in pcrs[..i] :: e.index == 1
      invariant found2 <==> exists e | e in pcrs[..i] :: e.index == 2
    {
      var entry := pcrs[i];
      assert entry in pcrs && pcrs[..i + 1] == pcrs[..i] + [entry];
      if entry.index == 0 {
        if entry.value != pinned.pcr0 {
          return false;
        }
        found0 := true;
      } else if entry.index == 1 {
        if entry.value != pinned.pcr1 {
          return false;
        }
        found1 := true;
      } else if entry.index == 2 {
        if entry.value != pinned.pcr2 {
          return false;
        }
        found2 := true;
      }
      i := i + 1;
    }
    assert pcrs[..i] == pcrs;
    ok := found0 && found1 && found2;
    if ok {
      forall k: nat | k < 3 ensures PcrEntry(k, pinned.Value(k)) in pcrs {
        var e :| e in pcrs && e.index == k;
        assert e == PcrEntry(k, pinned.Value(k));
      }
    } else {
      assert !found0 ==> PcrEntry(0, pinned.Value(0)) !in pcrs;
      assert !found1 ==> PcrEntry(1, pinned.Value(1)) !in pcrs;
      assert !found2 ==> PcrEntry(2, pinned.Value(2)) !in pcrs;
    }
  }

  /** The two freshness assertions in 64-bit arithmetic, where an overflow aborts. */
  predicate Fresh(timestamp: u64, now: u64) {
    && timestamp + MAX_OUTCOME_AGE_MS < U64_LIMIT && timestamp + MAX_OUTCOME_AGE_MS >= now
    && now + MAX_CLOCK_SKEW_MS < U64_LIMIT && timestamp <= now + MAX_CLOCK_SKEW_MS
  }

  /** Everything that `verify` asserts about a document and the payload it is claimed for. */
  predicate Accepts(sha256: bytes -> Digest, pinned: Pcrs, doc: Document, p: Payload, now: u64) {
    && PcrsMatch(pinned, doc.pcrs)
    && doc.userData == Some(sha256(Encode(p)))
    && Fresh(doc.timestamp, now)
    && doc.publicKey.Some?
  }

  /** Which of the three verifiers takes which payload; a foreign source has none of them. */
  predicate Takes(source: Source, p: Payload) {
    match source
    case AppleAppAttest => p.Attestation?
    case AndroidKeyAttestation => p.Attestation?
    case AppleAssertion => p.Assertion?
    case ForeignSource(_) => false
  }

  /** `verify`: the witness a source's package mints. */
  function Mint(sha256: bytes -> Digest, source: Source, pinned: Pcrs, doc: Document, p: Payload, now: u64)
    : Option<Witness>
    requires Takes(source, p)
  {
    if !Accepts(sha256, pinned, doc, p, now) then None
    else match p
      case Attestation(a, c, d) => Some(Witness(source, a, c, doc.timestamp, d))
      case Assertion(k, c) => Some(Witness(source, k, c, doc.timestamp, doc.userData.value))
  }

  method Verify(sha256: bytes -> Digest, source: Source, pinned: Pcrs, doc: Document, p: Payload, now: u64)
    returns (r: Option<Witness>)
    requires Takes(source, p)
    ensures r == Mint(sha256, source, pinned, doc, p, now)
  {
    hide PcrsMatch, Encode;
    var ok := CheckPcrs(pinned, doc.pcrs);
    if !ok || doc.userData != Some(sha256(Encode(p))) || !Fresh(doc.timestamp, now) || doc.publicKey.None? {
      return None;
    }
    match p
    case Attestation(a, c, d) => return Some(Witness(source, a, c, doc.timestamp, d));
    case Assertion(k, c) => return Some(Witness(source, k, c, doc.timestamp, doc.userData.value));
  }

  /** Away from the end of the 64-bit range the accepting clocks are the documented window. */
  lemma FreshExact(timestamp: u64, now: u64)
    requires timestamp + MAX_OUTCOME_AGE_MS + MAX_CLOCK_SKEW_MS < U64_LIMIT
    ensures Fresh(timestamp, now) <==> timestamp - MAX_CLOCK_SKEW_MS <= now <= timestamp + MAX_OUTCOME_AGE_MS
  {
  }

  /** At the end of the 64-bit range an addition overflows and the call aborts. */
  lemma FreshAborts(timestamp: u64, now: u64)
    ensures Fresh(timestamp, now) <==>
              && timestamp - 30_000 <= now <= timestamp + 300_000
              && timestamp + 300_000 < 0x1_0000_0000_0000_0000 && now + 30_000 < 0x1_0000_0000_0000_0000
  {
  }

  /** What the measurement check asks, entry by entry. */
  lemma PcrsExactly(pinned: Pcrs, pcrs: seq<PcrEntry>)
    ensures PcrsMatch(pinned, pcrs) <==>
              && (forall i | 0 <= i < |pcrs| :: pcrs[i].index == 0 ==> pcrs[i].value == pinned.pcr0)
              && (forall i | 0 <= i < |pcrs| :: pcrs[i].index == 1 ==> pcrs[i].value == pinned.pcr1)
              && (forall i | 0 <= i < |pcrs| :: pcrs[i].index == 2 ==> pcrs[i].value == pinned.pcr2)
              && (exists i | 0 <= i < |pcrs| :: pcrs[i].index == 0)
              && (exists i | 0 <= i < |pcrs| :: pcrs[i].index == 1)
              && (exists i | 0 <= i < |pcrs| :: pcrs[i].index == 2)
  {
    if PcrsMatch(pinned, pcrs) {
      assert forall i | 0 <= i < |pcrs| :: pcrs[i] in pcrs;
      assert PcrEntry(0, pinned.Value(0)) in pcrs && PcrEntry(1, pinned.Value(1)) in pcrs
             && PcrEntry(2, pinned.Value(2)) in pcrs;
    } else {
      forall k: nat, i | k < 3 && 0 <= i < |pcrs| && pcrs[i].index == k && pcrs[i].value == pinned.Value(k)
        ensures PcrEntry(k, pinned.Value(k)) in pcrs
      {
        assert pcrs[i] == PcrEntry(k, pinned.Value(k));
      }
    }
  }

  /** BCS of the payloads, octet by octet, for fields of fewer than 128 octets: each after its length, in order. */
  lemma PayloadLayout(a: bytes, c: bytes, d: bytes)
    requires |a| < 128 && |c| < 128 && |d| < 128
    ensures Encode(Attestation(a, c, d)) == ([|a|] + a) + ([|c|] + c) + ([|d|] + d)
    ensures Encode(Assertion(a, c)) == ([|a|] + a) + ([|c|] + c)
  {
    hide Vector;
    ShortVector(a);
    ShortVector(c);
    ShortVector(d);
    assert Vector(a) + (Vector(c) + Vector(d)) == Vector(a) + Vector(c) + Vector(d);
  }

  /**
   A witness is minted exactly when the measurements match, the document binds the hash of the payload and
   carries a public key, and the clock is in the window; its fields are those of the payload, in order.
   */
  lemma MintExactly(sha256: bytes -> Digest, source: Source, pinned: Pcrs, doc: Document, p: Payload, now: u64,
                    w: Witness)
    requires Takes(source, p)
    requires doc.timestamp + MAX_OUTCOME_AGE_MS + MAX_CLOCK_SKEW_MS < U64_LIMIT
    ensures Mint(sha256, source, pinned, doc, p, now) == Some(w) <==>
              && PcrsMatch(pinned, doc.pcrs) && doc.userData == Some(sha256(Encode(p))) && doc.publicKey.Some?
              && doc.timestamp - 30_000 <= now <= doc.timestamp + 300_000
              && w.source == source && w.timestampMs == doc.timestamp
              && match p {
                case Attestation(a, c, d) => w.attestedValue == a && w.challenge == c && w.detailHash == d
                case Assertion(k, c) =>
                  w.attestedValue == k && w.challenge == c && w.detailHash == sha256(Encode(p))
              }
  {
    hide PcrsMatch, Encode, Fresh;
    FreshExact(doc.timestamp, now);
  }

  lemma VectorSplits(a: bytes, x: bytes, b: bytes, y: bytes)
    requires Vector(a) + x == Vector(b) + y
    ensures a == b && x == y
  {
    hide Vector, ParseVector;
    ParseVectorExact(Vector(a) + x, a, x);
    ParseVectorExact(Vector(b) + y, b, y);
  }

  lemma VectorNotEmpty(a: bytes)
    ensures |Vector(a)| > 0
  {
  }

  lemma MixedShapes(a: bytes, c: bytes, d: bytes, k: bytes, c': bytes)
    ensures Vector(a) + (Vector(c) + Vector(d)) != Vector(k) + Vector(c')
  {
    hide Vector;
    if Vector(a) + (Vector(c) + Vector(d)) == Vector(k) + Vector(c') {
      VectorSplits(a, Vector(c) + Vector(d), k, Vector(c'));
      assert Vector(c') + [] == Vector(c');
      VectorSplits(c, Vector(d), c', []);
      VectorNotEmpty(d);
    }
  }

  /** Payload encodings are injective, also across the two shapes: two fields never read as three. */
  lemma EncodeInjective(p: Payload, q: Payload)
    requires Encode(p) == Encode(q)
    ensures p == q
  {
    hide Vector;
    match (p, q)
    case (Attestation(a, c, d), Attestation(a', c', d')) =>
      VectorSplits(a, Vector(c) + Vector(d), a', Vector(c') + Vector(d'));
      VectorSplits(c, Vector(d), c', Vector(d'));
      assert Vector(d) + [] == Vector(d) && Vector(d') + [] == Vector(d');
      VectorSplits(d, [], d', []);
    case (Assertion(k, c), Assertion(k', c')) =>
      VectorSplits(k, Vector(c), k', Vector(c'));
      assert Vector(c) + [] == Vector(c) && Vector(c') + [] == Vector(c');
      VectorSplits(c, [], c', []);
    case (Attestation(a, c, d), Assertion(k, c')) => MixedShapes(a, c, d, k, c');
    case (Assertion(k, c'), Attestation(a, c, d)) => MixedShapes(a, c, d, k, c');
  }

  /** The payload that a consumer reads off a witness. */
  function PayloadOf(w: Witness): Payload {
    if w.source == AppleAssertion then Assertion(w.attestedValue, w.challenge)
    else Attestation(w.attestedValue, w.challenge, w.detailHash)
  }

  /**
   What a consumer reads off a witness is what the enclave hashed into the document, at the document's own
   time and whichever verifier was called; or the two payload encodings are a hash collision.
   */
  lemma MintedAsHashed(sha256: bytes -> Digest, source: Source, pinned: Pcrs, doc: Document,
                       hashed: Payload, claimed: Payload, now: u64)
    requires Takes(source, claimed)
    requires doc.userData == Some(sha256(Encode(hashed)))
    requires Mint(sha256, source, pinned, doc, claimed, now).Some?
    ensures var w := Mint(sha256, source, pinned, doc, claimed, now).value;
            && PayloadOf(w) == claimed && w.source == source && w.timestampMs == doc.timestamp
            && (source == AppleAssertion ==> w.detailHash == sha256(Encode(hashed)))
            && (PayloadOf(w) == hashed || Collision(sha256, Encode(PayloadOf(w)), Encode(hashed)))
  {
    hide Encode, PcrsMatch;
    if Encode(claimed) == Encode(hashed) {
      EncodeInjective(claimed, hashed);
    }
  }

  /**
   The document does not say which platform was verified: the Apple and the Android package mint from
   the same documents and payloads, and their witnesses differ in the source alone.
   */
  lemma SourceNotInDocument(sha256: bytes -> Digest, pinned: Pcrs, doc: Document, p: Payload, now: u64)
    requires p.Attestation?
    ensures var apple := Mint(sha256, AppleAppAttest, pinned, doc, p, now);
            var android := Mint(sha256, AndroidKeyAttestation, pinned, doc, p, now);
            && (apple.Some? <==> android.Some?)
            && (apple.Some? ==> android.value == apple.value.(source := AndroidKeyAttestation))
  {
  }
}
