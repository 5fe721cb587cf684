/** The canonical message a device signs to authorize an action, and how far it separates actions. */
module ActionMessages {
  import opened Bytes
  import opened Bcs

  /** An object id: 32 octets, which BCS writes without a length. */
  type Id = d: bytes | |d| == 32 witness seq(32, i => 0)

  const MESSAGE_PREFIX: bytes := Ascii("device_binding::verify_action::v1")

  function CanonicalMessage(id: Id, domain: bytes, actionHash: bytes, expiryMs: u64): bytes {
    MESSAGE_PREFIX + domain + id + actionHash + Word(expiryMs)
  }

  /** `canonical_message`: the parts appended in order to one vector. */
  method BuildMessage(id: Id, domain: bytes, actionHash: bytes, expiryMs: u64) returns (message: bytes)
    ensures message == CanonicalMessage(id, domain, actionHash, expiryMs)
  {
    message := MESSAGE_PREFIX;
    message := message + domain;
    message := message + id;
    message := message + actionHash;
    message := message + Word(expiryMs);
  }

  lemma WordInjective(v: u64, w: u64)
    requires Word(v) == Word(w)
    ensures v == w
  {
    Pow256Values();
    ValueOfLittleEndian(v, 8);
    ValueOfLittleEndian(w, 8);
  }

  /** Equal messages have equal expiry, and the same octets between prefix and expiry. */
  lemma SameMessage(i1: Id, d1: bytes, a1: bytes, e1: u64, i2: Id, d2: bytes, a2: bytes, e2: u64)
    ensures CanonicalMessage(i1, d1, a1, e1) == CanonicalMessage(i2, d2, a2, e2)
            <==> e1 == e2 && d1 + i1 + a1 == d2 + i2 + a2
  {
    hide Word;
    var m1, m2 := CanonicalMessage(i1, d1, a1, e1), CanonicalMessage(i2, d2, a2, e2);
    var x1, x2 := d1 + i1 + a1, d2 + i2 + a2;
    assert m1 == MESSAGE_PREFIX + x1 + Word(e1);
    assert m2 == MESSAGE_PREFIX + x2 + Word(e2);
    var p := |MESSAGE_PREFIX|;
    if m1 == m2 {
      var n := |m1| - 8;
      assert m1[n..] == Word(e1) && m2[n..] == Word(e2);
      WordInjective(e1, e2);
      assert m1[p..n] == x1 && m2[p..n] == x2;
    }
  }

  /**
   When two domains, or two action hashes, have equal lengths, equal messages are for the same
   binding, domain, action and expiry.
   */
  lemma MessageSeparates(i1: Id, d1: bytes, a1: bytes, e1: u64, i2: Id, d2: bytes, a2: bytes, e2: u64)
    requires |d1| == |d2| || |a1| == |a2|
    requires CanonicalMessage(i1, d1, a1, e1) == CanonicalMessage(i2, d2, a2, e2)
    ensures i1 == i2 && d1 == d2 && a1 == a2 && e1 == e2
  {
    SameMessage(i1, d1, a1, e1, i2, d2, a2, e2);
    var x, n := d1 + i1 + a1, |d1|;
    assert |d2 + i2 + a2| == |d2| + 32 + |a2|;
    assert x[..n] == d1 && x[n..n + 32] == i1 && x[n + 32..] == a1;
    assert x == d2 + i2 + a2;
    assert x[..n] == d2 && x[n..n + 32] == i2 && x[n + 32..] == a2;
  }

  /** Some message for `i1` under a domain of length `m` is a message for `i2` under one of length `n`. */
  ghost predicate Clash(i1: Id, m: nat, i2: Id, n: nat) {
    exists d1: bytes, a1: bytes, e1: u64, d2: bytes, a2: bytes, e2: u64 ::
      |d1| == m && |d2| == n && CanonicalMessage(i1, d1, a1, e1) == CanonicalMessage(i2, d2, a2, e2)
  }

  /** At offsets `m` and `n` the two ids lie apart, or agree where they overlap. */
  predicate Overlay(i1: Id, m: nat, i2: Id, n: nat) {
    if m <= n then n - m >= 32 || i1[n - m..] == i2[..32 - (n - m)]
    else m - n >= 32 || i2[m - n..] == i1[..32 - (m - n)]
  }

  lemma OverlayOfEqual(i1: Id, d1: bytes, a1: bytes, i2: Id, d2: bytes, a2: bytes)
    requires |d1| <= |d2| && d1 + i1 + a1 == d2 + i2 + a2
    ensures Overlay(i1, |d1|, i2, |d2|)
  {
    var x, y, m, n := d1 + i1 + a1, d2 + i2 + a2, |d1|, |d2|;
    if n - m < 32 {
      assert x[m..m + 32] == i1 && y[n..n + 32] == i2;
      assert i1[n - m..] == x[n..m + 32] == y[n..m + 32] == i2[..32 - (n - m)];
    }
  }

  /** Octets with `i1` at `m` and `i2` at `n`, cut both ways into domain, id and action hash. */
  lemma EqualOfOverlay(i1: Id, m: nat, i2: Id, n: nat) returns (d1: bytes, a1: bytes, d2: bytes, a2: bytes)
    requires m <= n && Overlay(i1, m, i2, n)
    ensures |d1| == m && |d2| == n && d1 + i1 + a1 == d2 + i2 + a2
  {
    d1 := Zeros(m);
    if n - m >= 32 {
      var gap := Zeros(n - m - 32);
      d2, a1, a2 := d1 + i1 + gap, gap + i2, [];
      assert d1 + i1 + a1 == d2 + i2 + a2;
    } else {
      d2, a1, a2 := d1 + i1[..n - m], i2[32 - (n - m)..], [];
      assert i1 == i1[..n - m] + i1[n - m..];
      assert i2 == i2[..32 - (n - m)] + i2[32 - (n - m)..];
      assert d1 + i1 + a1 == d1 + (i1[..n - m] + i1[n - m..]) + a1 == d2 + i2 + a2;
    }
  }

  lemma OverlaySymmetric(i1: Id, m: nat, i2: Id, n: nat)
    ensures Overlay(i1, m, i2, n) <==> Overlay(i2, n, i1, m)
  {
    if m == n {
      assert i1[0..] == i1 && i2[0..] == i2 && i1[..32] == i1 && i2[..32] == i2;
    }
  }

  /** Domains and action hashes, for any expiry, under which one message serves both ids. */
  lemma ClashMessages(i1: Id, m: nat, i2: Id, n: nat, expiryMs: u64)
    returns (d1: bytes, a1: bytes, d2: bytes, a2: bytes)
    requires Overlay(i1, m, i2, n)
    ensures |d1| == m && |d2| == n
    ensures CanonicalMessage(i1, d1, a1, expiryMs) == CanonicalMessage(i2, d2, a2, expiryMs)
  {
    hide CanonicalMessage, Overlay;
    if m <= n {
      d1, a1, d2, a2 := EqualOfOverlay(i1, m, i2, n);
    } else {
      OverlaySymmetric(i1, m, i2, n);
      d2, a2, d1, a1 := EqualOfOverlay(i2, n, i1, m);
    }
    SameMessage(i1, d1, a1, expiryMs, i2, d2, a2, expiryMs);
  }

  /**
   For two given ids and domain lengths: some message serves both exactly when the ids lie at least 32
   octets apart or agree where they overlap; the choice of domains and action hashes does the rest.
   */
  lemma ClashExactly(i1: Id, m: nat, i2: Id, n: nat)
    ensures Clash(i1, m, i2, n) <==> Overlay(i1, m, i2, n)
  {
    hide CanonicalMessage, Overlay;
    if Clash(i1, m, i2, n) {
      var d1: bytes, a1: bytes, e1: u64, d2: bytes, a2: bytes, e2: u64 :|
        |d1| == m && |d2| == n && CanonicalMessage(i1, d1, a1, e1) == CanonicalMessage(i2, d2, a2, e2);
      SameMessage(i1, d1, a1, e1, i2, d2, a2, e2);
      if m <= n {
        OverlayOfEqual(i1, d1, a1, i2, d2, a2);
      } else {
        OverlayOfEqual(i2, d2, a2, i1, d1, a1);
        OverlaySymmetric(i1, m, i2, n);
      }
    }
    if Overlay(i1, m, i2, n) {
      var _, _, _, _ := ClashMessages(i1, m, i2, n, 0);
    }
  }

  /** Under domains of these lengths no message for one of these ids is a message for another. */
  ghost predicate ScopedToBinding(ids: set<Id>, lengths: set<nat>) {
    forall i1, m, i2, n | i1 in ids && i2 in ids && m in lengths && n in lengths && Clash(i1, m, i2, n) :: i1 == i2
  }

  /** For the ids in use and the domain lengths in use, exactly when messages are scoped to one binding. */
  lemma ScopedExactly(ids: set<Id>, lengths: set<nat>)
    ensures ScopedToBinding(ids, lengths)
            <==> forall i1, m, i2, n |
                   i1 in ids && i2 in ids && i1 != i2 && m in lengths && n in lengths && m <= n ::
                   n - m < 32 && i1[n - m..] != i2[..32 - (n - m)]
  {
    hide Clash;
    forall i1: Id, m: nat, i2: Id, n: nat ensures Clash(i1, m, i2, n) <==> Overlay(i1, m, i2, n) {
      ClashExactly(i1, m, i2, n);
    }
    forall i1: Id, i2: Id ensures i1[0..] == i1 && i2[..32] == i2 {
    }
  }

  /** In particular domains of one length always scope, and two lengths 32 or more apart never do. */
  lemma LengthsDecide(i1: Id, i2: Id, m: nat, n: nat)
    requires i1 != i2
    ensures !Clash(i1, m, i2, m)
    ensures m + 32 <= n ==> Clash(i1, m, i2, n)
  {
    hide Clash;
    ClashExactly(i1, m, i2, m);
    ClashExactly(i1, m, i2, n);
    assert i1[0..] == i1 && i2[..32] == i2;
  }

  /** The octets of a message, part by part: 33 of prefix, the domain, 32 of id, the action hash, 8 of expiry. */
  lemma MessageLayout(id: Id, domain: bytes, actionHash: bytes, expiryMs: u64)
    ensures var m, n := CanonicalMessage(id, domain, actionHash, expiryMs), |domain|;
            && |m| == 73 + n + |actionHash|
            && m[..33] == Ascii("device_binding::verify_action::v1")
            && m[33..33 + n] == domain
            && m[33 + n..65 + n] == id
            && m[65 + n..|m| - 8] == actionHash
            && LittleEndianValue(m[|m| - 8..]) == expiryMs
  {
    hide Word, LittleEndianValue, Ascii;
    var m, n := CanonicalMessage(id, domain, actionHash, expiryMs), |domain|;
    assert |MESSAGE_PREFIX| == 33;
    assert m[|m| - 8..] == Word(expiryMs);
    WordValue(expiryMs);
  }
}
