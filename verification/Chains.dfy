/**
 Certificate-chain validation of the Android and the Apple verifier. Parsing a certificate and
 checking a signature are parameters: `parse` stands for the X.509 decoder and `signed(c, i)` for
 "the signature on `c` verifies under the public key of `i`".
 */
module Chains {
  import opened Bytes

  /** What validation and the verifiers look at in a certificate; times are seconds since 1970. */
  datatype Certificate = Certificate(
    der: bytes,
    serial: bytes,
    notBefore: nat,
    notAfter: nat,
    isCa: bool,
    keyDescription: Option<bytes>,
    nonce: Option<bytes>,
    spki: bytes)

  datatype Pki = Pki(
    parse: bytes -> Option<Certificate>,
    signed: (Certificate, Certificate) -> bool,
    roots: seq<Certificate>)

  /** `check_validity`: seconds against a clock in milliseconds, both ends included. */
  predicate InWindow(c: Certificate, nowMs: nat) {
    c.notBefore * 1000 <= nowMs <= c.notAfter * 1000
  }

  predicate AllInWindow(certs: seq<Certificate>, nowMs: nat) {
    forall c | c in certs :: InWindow(c, nowMs)
  }

  /** Each certificate is signed by the next. */
  predicate Linked(pki: Pki, certs: seq<Certificate>) {
    forall i | 0 <= i < |certs| - 1 :: pki.signed(certs[i], certs[i + 1])
  }

  function ParseAll(parse: bytes -> Option<Certificate>, chain: seq<bytes>): (r: Option<seq<Certificate>>)
    ensures r.Some? ==> |r.value| == |chain|
  {
    if forall i | 0 <= i < |chain| :: parse(chain[i]).Some?
    then Some(seq(|chain|, i requires 0 <= i < |chain| && parse(chain[i]).Some? => parse(chain[i]).value))
    else None
  }

  /** A pinned root anchors the top by being it, octet for octet, or by having signed it. */
  predicate Anchors(pki: Pki, root: Certificate, top: Certificate) {
    root.der == top.der || pki.signed(top, root)
  }

  function AnchorFrom(pki: Pki, top: Certificate, k: nat): (r: Option<nat>)
    requires k <= |pki.roots|
    ensures r.Some? ==> k <= r.value < |pki.roots| && Anchors(pki, pki.roots[r.value], top)
                        && forall i | k <= i < r.value :: !Anchors(pki, pki.roots[i], top)
    ensures r.None? ==> forall i | k <= i < |pki.roots| :: !Anchors(pki, pki.roots[i], top)
    decreases |pki.roots| - k
  {
    if k == |pki.roots| then None
    else if Anchors(pki, pki.roots[k], top) then Some(k)
    else AnchorFrom(pki, top, k + 1)
  }

  /** The first pinned root that anchors the top. */
  function FirstAnchor(pki: Pki, top: Certificate): (r: Option<nat>)
    ensures r.Some? ==> r.value < |pki.roots| && Anchors(pki, pki.roots[r.value], top)
                        && forall i | 0 <= i < r.value :: !Anchors(pki, pki.roots[i], top)
    ensures r.None? ==> forall i | 0 <= i < |pki.roots| :: !Anchors(pki, pki.roots[i], top)
  {
    AnchorFrom(pki, top, 0)
  }

  /** The first root that anchors decides: a root that merely signed must itself be in its window. */
  predicate Anchored(pki: Pki, top: Certificate, nowMs: nat) {
    var r := FirstAnchor(pki, top);
    r.Some? && (pki.roots[r.value].der == top.der || InWindow(pki.roots[r.value], nowMs))
  }

  /** The Android acceptance condition on a parsed chain, leaf first. */
  predicate AndroidAccepts(pki: Pki, certs: seq<Certificate>, nowMs: nat) {
    certs != [] && AllInWindow(certs, nowMs) && Linked(pki, certs) && Anchored(pki, certs[|certs| - 1], nowMs)
  }

  function AndroidLeaf(pki: Pki, chain: seq<bytes>, nowMs: nat): Option<Certificate> {
    var certs :- ParseAll(pki.parse, chain);
    if AndroidAccepts(pki, certs, nowMs) then Some(certs[0]) else None
  }

  method ParseChain(parse: bytes -> Option<Certificate>, chain: seq<bytes>) returns (r: Option<seq<Certificate>>)
    ensures r == ParseAll(parse, chain)
  {
    var certs: seq<Certificate> := [];
    for i := 0 to |chain|
      invariant |certs| == i
      invariant forall j | 0 <= j < i :: parse(chain[j]) == Some(certs[j])
    {
      var c := parse(chain[i]);
      if c.None? {
        return None;
      }
      certs := certs + [c.value];
    }
    assert certs == seq(|chain|, i requires 0 <= i < |chain| && parse(chain[i]).Some? => parse(chain[i]).value);
    return Some(certs);
  }

  method CheckWindows(certs: seq<Certificate>, nowMs: nat) returns (ok: bool)
    ensures ok <==> AllInWindow(certs, nowMs)
  {
    for i := 0 to |certs|
      invariant forall j | 0 <= j < i :: InWindow(certs[j], nowMs)
    {
      if !InWindow(certs[i], nowMs) {
        return false;
      }
    }
    return true;
  }

  method CheckLinks(pki: Pki, certs: seq<Certificate>) returns (ok: bool)
    requires certs != []
    ensures ok <==> Linked(pki, certs)
  {
    for i := 0 to |certs| - 1
      invariant forall j | 0 <= j < i :: pki.signed(certs[j], certs[j + 1])
    {
      if !pki.signed(certs[i], certs[i + 1]) {
        return false;
      }
    }
    return true;
  }

  /** The anchor loop with its `anchored` flag and early exits. */
  method CheckAnchor(pki: Pki, top: Certificate, nowMs: nat) returns (ok: bool)
    ensures ok <==> Anchored(pki, top, nowMs)
  {
    var anchored := false;
    var k := 0;
    while k < |pki.roots|
      invariant k <= |pki.roots| && !anchored
      invariant forall i | 0 <= i < k :: !Anchors(pki, pki.roots[i], top)
    {
      var root := pki.roots[k];
      if root.der == top.der {
        anchored := true;
        break;
      }
      if pki.signed(top, root) {
        if !InWindow(root, nowMs) {
          return false;
        }
        anchored := true;
        break;
      }
      k := k + 1;
    }
    return anchored;
  }

  /** `validate_chain` of the Android verifier; its loop over CA flags discards every result. */
  method ValidateChain(pki: Pki, chain: seq<bytes>, nowMs: nat) returns (r: Option<Certificate>)
    ensures r == AndroidLeaf(pki, chain, nowMs)
  {
    hide ParseAll, Anchored, AllInWindow, Linked;
    if chain == [] {
      return None;
    }
    var parsed := ParseChain(pki.parse, chain);
    if parsed.None? {
      return None;
    }
    var certs := parsed.value;
    var ok := CheckWindows(certs, nowMs);
    if !ok {
      return None;
    }
    ok := CheckLinks(pki, certs);
    if !ok {
      return None;
    }
    ok := CheckAnchor(pki, certs[|certs| - 1], nowMs);
    if !ok {
      return None;
    }
    return Some(certs[0]);
  }

  // Time.

  lemma WindowConvex(c: Certificate, t1: nat, t: nat, t2: nat)
    requires t1 <= t <= t2 && InWindow(c, t1) && InWindow(c, t2)
    ensures InWindow(c, t)
  {
  }

  /** For a fixed chain the accepting clocks form an interval, and the leaf does not depend on them. */
  lemma AndroidAcceptanceInterval(pki: Pki, chain: seq<bytes>, t1: nat, t: nat, t2: nat)
    requires t1 <= t <= t2
    requires AndroidLeaf(pki, chain, t1).Some? && AndroidLeaf(pki, chain, t2).Some?
    ensures AndroidLeaf(pki, chain, t) == AndroidLeaf(pki, chain, t1)
  {
    hide ParseAll;
    var certs := ParseAll(pki.parse, chain).value;
    forall c | c in certs ensures InWindow(c, t) {
      WindowConvex(c, t1, t, t2);
    }
    var root := pki.roots[FirstAnchor(pki, certs[|certs| - 1]).value];
    if root.der != certs[|certs| - 1].der {
      WindowConvex(root, t1, t, t2);
    }
  }

  /** What acceptance by any pinned root would be. */
  predicate AnchoredByAny(pki: Pki, top: Certificate, nowMs: nat) {
    exists i | 0 <= i < |pki.roots| ::
      pki.roots[i].der == top.der || (pki.signed(top, pki.roots[i]) && InWindow(pki.roots[i], nowMs))
  }

  /**
   The loop is stricter than trying every root: it differs exactly when the first root that anchors
   is a different certificate outside its window and some later root would do.
   */
  lemma FirstRootDecides(pki: Pki, top: Certificate, nowMs: nat)
    ensures Anchored(pki, top, nowMs) ==> AnchoredByAny(pki, top, nowMs)
    ensures AnchoredByAny(pki, top, nowMs) && !Anchored(pki, top, nowMs) <==>
            var r := FirstAnchor(pki, top);
            && r.Some? && pki.roots[r.value].der != top.der && !InWindow(pki.roots[r.value], nowMs)
            && exists i | r.value < i < |pki.roots| ::
                 pki.roots[i].der == top.der || (pki.signed(top, pki.roots[i]) && InWindow(pki.roots[i], nowMs))
  {
    if AnchoredByAny(pki, top, nowMs) {
      var i :| 0 <= i < |pki.roots|
        && (pki.roots[i].der == top.der || (pki.signed(top, pki.roots[i]) && InWindow(pki.roots[i], nowMs)));
      assert Anchors(pki, pki.roots[i], top);
    }
  }

  // Apple: one pinned root, which must always be in its window and a CA, and CA flags are enforced.

  predicate AppleAccepts(pki: Pki, root: Certificate, certs: seq<Certificate>, nowMs: nat) {
    && certs != [] && AllInWindow(certs, nowMs)
    && (forall i | 1 <= i < |certs| :: certs[i].isCa)
    && Linked(pki, certs)
    && InWindow(root, nowMs) && root.isCa
    && pki.signed(certs[|certs| - 1], root)
  }

  function AppleLeaf(pki: Pki, root: Certificate, chain: seq<bytes>, nowMs: nat): Option<Certificate> {
    var certs :- ParseAll(pki.parse, chain);
    if AppleAccepts(pki, root, certs, nowMs) then Some(certs[0]) else None
  }

  method CheckCaFlags(certs: seq<Certificate>) returns (ok: bool)
    requires certs != []
    ensures ok <==> forall i | 1 <= i < |certs| :: certs[i].isCa
  {
    for i := 1 to |certs|
      invariant forall j | 1 <= j < i && j < |certs| :: certs[j].isCa
    {
      if !certs[i].isCa {
        return false;
      }
    }
    return true;
  }

  /** `validate_x5c_chain`. */
  method ValidateX5cChain(pki: Pki, root: Certificate, chain: seq<bytes>, nowMs: nat) returns (r: Option<Certificate>)
    ensures r == AppleLeaf(pki, root, chain, nowMs)
  {
    hide ParseAll, AllInWindow, Linked;
    if chain == [] {
      return None;
    }
    var parsed := ParseChain(pki.parse, chain);
    if parsed.None? {
      return None;
    }
    var certs := parsed.value;
    var ok := CheckWindows(certs, nowMs);
    if !ok {
      return None;
    }
    ok := CheckCaFlags(certs);
    if !ok {
      return None;
    }
    ok := CheckLinks(pki, certs);
    if !ok {
      return None;
    }
    if !InWindow(root, nowMs) || !root.isCa || !pki.signed(certs[|certs| - 1], root) {
      return None;
    }
    return Some(certs[0]);
  }

  lemma AppleAcceptanceInterval(pki: Pki, root: Certificate, chain: seq<bytes>, t1: nat, t: nat, t2: nat)
    requires t1 <= t <= t2
    requires AppleLeaf(pki, root, chain, t1).Some? && AppleLeaf(pki, root, chain, t2).Some?
    ensures AppleLeaf(pki, root, chain, t) == AppleLeaf(pki, root, chain, t1)
  {
    hide ParseAll;
    var certs := ParseAll(pki.parse, chain).value;
    forall c | c in certs ensures InWindow(c, t) {
      WindowConvex(c, t1, t, t2);
    }
    WindowConvex(root, t1, t, t2);
  }

  /**
   With Apple's root pinned alone, the Android verifier accepts every chain that Apple's accepts.
   The converse holds exactly when the flags and the root's own window are in order and the top is
   signed by the root rather than only equal to it.
   */
  lemma AppleIsStricter(pki: Pki, root: Certificate, chain: seq<bytes>, nowMs: nat)
    requires pki.roots == [root]
    ensures AppleLeaf(pki, root, chain, nowMs).Some? ==>
              AndroidLeaf(pki, chain, nowMs) == AppleLeaf(pki, root, chain, nowMs)
    ensures AndroidLeaf(pki, chain, nowMs).Some? ==>
              var certs := ParseAll(pki.parse, chain).value;
              (AppleLeaf(pki, root, chain, nowMs).Some? <==>
                && (forall i | 1 <= i < |certs| :: certs[i].isCa)
                && root.isCa && InWindow(root, nowMs) && pki.signed(certs[|certs| - 1], root))
  {
    hide ParseAll;
    if ParseAll(pki.parse, chain).Some? && chain != [] {
      var certs := ParseAll(pki.parse, chain).value;
      var top := certs[|certs| - 1];
      if pki.signed(top, root) {
        assert Anchors(pki, pki.roots[0], top);
        assert FirstAnchor(pki, top) == Some(0);
      }
    }
  }

  /** Although its comment asks for CA certificates above the leaf, Android accepts a chain without one. */
  lemma NonCaIssuerAccepted()
    ensures exists pki: Pki, chain, now: nat ::
              AndroidLeaf(pki, chain, now).Some? && |chain| == 2 && pki.parse(chain[1]).Some?
              && !pki.parse(chain[1]).value.isCa
  {
    var leaf := Certificate([0], [0], 0, 1, false, None, None, []);
    var issuer := Certificate([1], [1], 0, 1, false, None, None, []);
    var parse := (d: bytes) => if d == [0] then Some(leaf) else Some(issuer);
    var pki := Pki(parse, (c, i) => true, [issuer]);
    var chain: seq<bytes> := [[0], [1]];
    assert pki.parse(chain[0]) == Some(leaf) && pki.parse(chain[1]) == Some(issuer);
    assert ParseAll(pki.parse, chain).value == [leaf, issuer];
    assert FirstAnchor(pki, issuer) == Some(0) by {
      assert Anchors(pki, pki.roots[0], issuer);
    }
    assert AndroidAccepts(pki, [leaf, issuer], 500);
    assert AndroidLeaf(pki, chain, 500).Some?;
  }

  // Acceptance in terms of the certificates alone.

  /** The certificate parsed from the octets at `i`. */
  function At(pki: Pki, chain: seq<bytes>, i: nat): Certificate
    requires i < |chain| && pki.parse(chain[i]).Some?
  {
    pki.parse(chain[i]).value
  }

  lemma ParsedAt(pki: Pki, chain: seq<bytes>)
    ensures ParseAll(pki.parse, chain).Some? <==> forall i: nat | i < |chain| :: pki.parse(chain[i]).Some?
    ensures ParseAll(pki.parse, chain).Some? ==>
              forall i: nat | i < |chain| :: ParseAll(pki.parse, chain).value[i] == At(pki, chain, i)
  {
  }

  lemma AnchoredExactly(pki: Pki, top: Certificate, nowMs: nat)
    ensures Anchored(pki, top, nowMs) <==>
              exists r: nat ::
                && r < |pki.roots|
                && (forall q: nat | q < r :: pki.roots[q].der != top.der && !pki.signed(top, pki.roots[q]))
                && (pki.roots[r].der == top.der
                    || (pki.signed(top, pki.roots[r])
                        && pki.roots[r].notBefore * 1000 <= nowMs <= pki.roots[r].notAfter * 1000))
  {
    var f := FirstAnchor(pki, top);
    if f.Some? {
      assert forall q: nat | q < f.value :: !Anchors(pki, pki.roots[q], top);
      forall r: nat | r < |pki.roots|
        && (forall q: nat | q < r :: pki.roots[q].der != top.der && !pki.signed(top, pki.roots[q]))
        && (pki.roots[r].der == top.der || pki.signed(top, pki.roots[r]))
        ensures r == f.value
      {
        assert Anchors(pki, pki.roots[r], top);
        assert Anchors(pki, pki.roots[f.value], top);
      }
    } else {
      forall r: nat | r < |pki.roots| ensures !(pki.roots[r].der == top.der || pki.signed(top, pki.roots[r])) {
        assert !Anchors(pki, pki.roots[r], top);
      }
    }
  }

  /**
   `validate_chain` accepts exactly the nonempty chains of which every certificate parses and is inside its
   validity period, to the millisecond and both ends included; each is signed by the next; and the first pinned
   root that is the last certificate, or has signed it, is it or is inside its own period. The leaf is the
   first certificate.
   */
  lemma AndroidLeafExactly(pki: Pki, chain: seq<bytes>, nowMs: nat, leaf: Certificate)
    ensures AndroidLeaf(pki, chain, nowMs) == Some(leaf) <==>
              && chain != []
              && (forall i: nat | i < |chain| ::
                    && pki.parse(chain[i]).Some?
                    && At(pki, chain, i).notBefore * 1000 <= nowMs <= At(pki, chain, i).notAfter * 1000)
              && (forall i: nat | i + 1 < |chain| :: pki.signed(At(pki, chain, i), At(pki, chain, i + 1)))
              && leaf == At(pki, chain, 0)
              && var top := At(pki, chain, |chain| - 1);
              exists r: nat ::
                && r < |pki.roots|
                && (forall q: nat | q < r :: pki.roots[q].der != top.der && !pki.signed(top, pki.roots[q]))
                && (pki.roots[r].der == top.der
                    || (pki.signed(top, pki.roots[r])
                        && pki.roots[r].notBefore * 1000 <= nowMs <= pki.roots[r].notAfter * 1000))
  {
    hide ParseAll;
    ParsedAt(pki, chain);
    if ParseAll(pki.parse, chain).Some? && chain != [] {
      var certs := ParseAll(pki.parse, chain).value;
      assert forall i: nat | i < |certs| :: certs[i] in certs;
      AnchoredExactly(pki, certs[|certs| - 1], nowMs);
    }
  }

  /**
   `validate_x5c_chain` accepts exactly those of which, likewise, every certificate is inside its period and
   signed by the next, all but the leaf are CAs, and the pinned root is a CA inside its period that has signed
   the last.
   */
  lemma AppleLeafExactly(pki: Pki, root: Certificate, chain: seq<bytes>, nowMs: nat, leaf: Certificate)
    ensures AppleLeaf(pki, root, chain, nowMs) == Some(leaf) <==>
              && chain != []
              && (forall i: nat | i < |chain| ::
                    && pki.parse(chain[i]).Some?
                    && At(pki, chain, i).notBefore * 1000 <= nowMs <= At(pki, chain, i).notAfter * 1000)
              && (forall i: nat | 1 <= i < |chain| :: At(pki, chain, i).isCa)
              && (forall i: nat | i + 1 < |chain| :: pki.signed(At(pki, chain, i), At(pki, chain, i + 1)))
              && leaf == At(pki, chain, 0)
              && root.notBefore * 1000 <= nowMs <= root.notAfter * 1000 && root.isCa
              && pki.signed(At(pki, chain, |chain| - 1), root)
  {
    hide ParseAll;
    ParsedAt(pki, chain);
    if ParseAll(pki.parse, chain).Some? && chain != [] {
      var certs := ParseAll(pki.parse, chain).value;
      assert forall i: nat | i < |certs| :: certs[i] in certs;
    }
  }
}
