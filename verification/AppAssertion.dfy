/** Apple assertions: a signature over authenticator data and client data under a key that the caller names. */
module AppAssertions {
  import opened Bytes
  import opened Bcs
  import opened Cbor
  import opened AttestationObjects
  import AppAttest
  import Outcomes

  const SIGNATURE: bytes := Ascii("signature")
  const AUTHENTICATOR_DATA: bytes := Ascii("authenticatorData")
  const APPLE_ASSERTION: bytes := Ascii("apple-app-attest-assertion")

  /** Signature and authenticator data; other text keys are passed over. */
  function ReadAssertion(v: Value): Option<(bytes, bytes)> {
    if !v.Map? || !TextKeys(v.entries) then None
    else
      var signature :- AsBytes(LastValue(v.entries, SIGNATURE));
      var authData :- AsBytes(LastValue(v.entries, AUTHENTICATOR_DATA));
      Some((signature, authData))
  }

  function ParseAssertion(s: bytes): Option<(bytes, bytes)> {
    var (v, _) :- Item(s);
    ReadAssertion(v)
  }

  /** `decode_assertion`: the loop over the entries. */
  method DecodeAssertion(s: bytes) returns (r: Option<(bytes, bytes)>)
    ensures r == ParseAssertion(s)
  {
    hide Item;
    var top := Item(s);
    if top.None? || !top.value.0.Map? {
      return None;
    }
    var es := top.value.0.entries;
    var signature: Option<bytes>, authData: Option<bytes> := None, None;
    for i := 0 to |es|
      invariant TextKeys(es[..i])
      invariant signature == AsBytes(LastValue(es[..i], SIGNATURE))
      invariant authData == AsBytes(LastValue(es[..i], AUTHENTICATOR_DATA))
    {
      var Entry(k, val) := es[i];
      assert es[i] in es;
      assert es[..i + 1] == es[..i] + [es[i]];
      LastValueSnoc(es[..i], es[i], SIGNATURE);
      LastValueSnoc(es[..i], es[i], AUTHENTICATOR_DATA);
      if !k.TextString? {
        return None;
      }
      if k.t == SIGNATURE {
        signature := AsBytes(Some(val));
      } else if k.t == AUTHENTICATOR_DATA {
        authData := AsBytes(Some(val));
      }
    }
    assert es[..|es|] == es;
    if signature.None? || authData.None? {
      return None;
    }
    return Some((signature.value, authData.value));
  }

  /** The check of a P-256 signature over a digest, given key and signature as they arrive. */
  type Ecdsa = (bytes, Digest, bytes) -> bool

  /** What `verify_assertion` asks of the decoded parts. */
  predicate Signs(ecdsa: Ecdsa, sha256: bytes -> Digest, key: bytes, signature: bytes, authData: bytes,
                  clientData: bytes, appId: bytes) {
    && |authData| >= 37 && authData[..32] == sha256(appId)
    && ecdsa(key, AppAttest.Nonce(sha256, authData, clientData), signature)
  }

  /** `verify_assertion`: no certificate is looked at, and the key is whatever the caller says. */
  function Verify(ecdsa: Ecdsa, sha256: bytes -> Digest, obj: bytes, clientData: bytes, key: bytes, appId: bytes,
                  clockMs: u64): Option<Outcomes.Outcome>
  {
    var (signature, authData) :- ParseAssertion(obj);
    if !Signs(ecdsa, sha256, key, signature, authData, clientData, appId) then None
    else Some(Outcomes.Outcome(APPLE_ASSERTION, key, clientData, clockMs, sha256(obj)))
  }

  /** An assertion: text keys only, and the last entries named "signature" and "authenticatorData". */
  lemma ReadAssertionExactly(es: seq<Entry>, signature: bytes, authData: bytes)
    ensures ReadAssertion(Map(es)) == Some((signature, authData)) <==>
              && (forall i | 0 <= i < |es| :: es[i].key.TextString?)
              && Last(es, Ascii("signature"), ByteString(signature))
              && Last(es, Ascii("authenticatorData"), ByteString(authData))
  {
    hide LastValue, Last, Ascii;
    LastValueExactly(es, SIGNATURE, ByteString(signature));
    LastValueExactly(es, AUTHENTICATOR_DATA, ByteString(authData));
    forall i | 0 <= i < |es| ensures es[i] in es {
    }
  }

  function AssertionValue(signature: bytes, authData: bytes): Value {
    Map([Entry(TextString(SIGNATURE), ByteString(signature)),
         Entry(TextString(AUTHENTICATOR_DATA), ByteString(authData))])
  }

  lemma ReadAssertionValue(signature: bytes, authData: bytes)
    ensures ReadAssertion(AssertionValue(signature, authData)) == Some((signature, authData))
  {
    hide LastValue;
    var es := AssertionValue(signature, authData).entries;
    assert |SIGNATURE| == 9 && |AUTHENTICATOR_DATA| == 17;
    assert es == [es[0]] + [es[1]] && [es[0]] == [] + [es[0]];
    LastValueSnoc([es[0]], es[1], SIGNATURE);
    LastValueSnoc([es[0]], es[1], AUTHENTICATOR_DATA);
    LastValueSnoc([], es[0], SIGNATURE);
  }

  /** An encoded assertion is accepted exactly when its signature is good for the key that the caller names. */
  lemma AssertionExact(ecdsa: Ecdsa, sha256: bytes -> Digest, signature: bytes, authData: bytes,
                       clientData: bytes, key: bytes, appId: bytes, clockMs: u64)
    requires |signature| < ARGUMENT_LIMIT && |authData| < ARGUMENT_LIMIT
    ensures var obj := Encode(AssertionValue(signature, authData));
            Verify(ecdsa, sha256, obj, clientData, key, appId, clockMs)
            == if |authData| >= 37 && authData[..32] == sha256(appId)
                  && ecdsa(key, sha256(authData + sha256(clientData)), signature)
               then Some(Outcomes.Outcome(APPLE_ASSERTION, key, clientData, clockMs, sha256(obj)))
               else None
  {
    hide Item, Encode, ReadAssertion;
    var v := AssertionValue(signature, authData);
    assert |SIGNATURE| == 9 && |AUTHENTICATOR_DATA| == 17;
    ReadAssertionValue(signature, authData);
    ItemRoundTrip(v, []);
    assert Encode(v) + [] == Encode(v);
  }

  /** Two accepted assertions over one digest have the same authenticator data and client data, or collide. */
  lemma OneDigestOneAssertion(ecdsa: Ecdsa, sha256: bytes -> Digest, o1: bytes, c1: bytes, k1: bytes, a1: bytes,
                              t1: u64, o2: bytes, c2: bytes, k2: bytes, a2: bytes, t2: u64)
    requires Verify(ecdsa, sha256, o1, c1, k1, a1, t1).Some? && Verify(ecdsa, sha256, o2, c2, k2, a2, t2).Some?
    requires AppAttest.Nonce(sha256, ParseAssertion(o1).value.1, c1)
          == AppAttest.Nonce(sha256, ParseAssertion(o2).value.1, c2)
    ensures var d1, d2 := ParseAssertion(o1).value.1, ParseAssertion(o2).value.1;
            || (d1 == d2 && c1 == c2 && (a1 == a2 || Collision(sha256, a1, a2)))
            || Collision(sha256, d1 + sha256(c1), d2 + sha256(c2)) || Collision(sha256, c1, c2)
  {
    hide ParseAssertion, AppAttest.Nonce;
    AppAttest.NonceBinds(sha256, ParseAssertion(o1).value.1, c1, ParseAssertion(o2).value.1, c2);
  }

  lemma SourceName()
    ensures APPLE_ASSERTION == Ascii("apple-app-attest-assertion")
  {
  }
}
