/** The `authData` layout of sections 6.1 and 6.5.1 of WebAuthn Level 2, as the Apple verifier reads it. */
module AuthData {
  import opened Bytes

  datatype AuthenticatorData = AuthenticatorData(
    rpIdHash: bytes,
    flags: byte,
    signCount: nat,
    aaguid: bytes,
    credentialId: bytes,
    credentialPublicKey: bytes)

  /** Attested credential data is present: bit 6 of the flags. */
  predicate HasCredential(flags: byte) {
    flags / 64 % 2 == 1
  }

  function Parse(s: bytes): Option<AuthenticatorData> {
    if |s| < 37 || !HasCredential(s[32]) || |s| < 55 then None
    else
      var len := BigEndian(s[53..55]);
      if |s| < 55 + len then None
      else Some(AuthenticatorData(s[..32], s[32], BigEndian(s[33..37]), s[37..53], s[55..55 + len], s[55 + len..]))
  }

  /** The field sizes the layout prescribes. */
  predicate Valid(a: AuthenticatorData) {
    && |a.rpIdHash| == 32 && HasCredential(a.flags) && a.signCount < 0x1_0000_0000
    && |a.aaguid| == 16 && |a.credentialId| < 0x1_0000
  }

  function Layout(a: AuthenticatorData): bytes {
    a.rpIdHash + [a.flags] + ToBigEndian(a.signCount, 4) + a.aaguid
    + ToBigEndian(|a.credentialId|, 2) + a.credentialId + a.credentialPublicKey
  }

  lemma ParseLayout(a: AuthenticatorData)
    requires Valid(a)
    ensures Parse(Layout(a)) == Some(a)
  {
    hide BigEndian, ToBigEndian;
    Pow256Values();
    ToBigEndianValue(a.signCount, 4);
    ToBigEndianValue(|a.credentialId|, 2);
    var s, n := Layout(a), |a.credentialId|;
    var count, len := ToBigEndian(a.signCount, 4), ToBigEndian(n, 2);
    assert s == (a.rpIdHash + [a.flags] + count) + (a.aaguid + len + a.credentialId + a.credentialPublicKey);
    assert s[..32] == a.rpIdHash && s[32] == a.flags && s[33..37] == count;
    var t := s[37..];
    assert t == a.aaguid + len + a.credentialId + a.credentialPublicKey;
    assert s[37..53] == t[..16] == a.aaguid;
    assert s[53..55] == t[16..18] == len;
    assert s[55..55 + n] == t[18..18 + n] == a.credentialId;
    assert s[55 + n..] == t[18 + n..] == a.credentialPublicKey;
  }

  lemma LayoutParse(s: bytes)
    requires Parse(s).Some?
    ensures Valid(Parse(s).value) && Layout(Parse(s).value) == s
  {
    hide BigEndian, ToBigEndian;
    Pow256Values();
    BigEndianBound(s[33..37]);
    BigEndianBound(s[53..55]);
    FromBigEndian(s[33..37]);
    FromBigEndian(s[53..55]);
    var a := Parse(s).value;
    var n := |a.credentialId|;
    assert s == s[..32] + [s[32]] + s[33..37] + s[37..53] + s[53..55] + s[55..55 + n] + s[55 + n..];
  }

  /** Parsing is exact: it accepts the layouts of valid data and returns the data laid out. */
  lemma ParseExact(s: bytes, a: AuthenticatorData)
    ensures Parse(s) == Some(a) <==> Valid(a) && s == Layout(a)
  {
    hide Parse, Layout, Valid;
    if Parse(s) == Some(a) {
      LayoutParse(s);
    }
    if Valid(a) && s == Layout(a) {
      ParseLayout(a);
    }
  }
}
