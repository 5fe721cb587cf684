/** The `attestationApplicationId` blob: a SET OF package infos, then a SET OF signature digests. */
module ApplicationIds {
  import opened Bytes
  import opened Der

  datatype PackageInfo = PackageInfo(packageName: bytes, version: int)

  datatype ApplicationId = ApplicationId(packageInfos: seq<PackageInfo>, signatureDigests: seq<bytes>)

  /** One package info; what follows the version inside its SEQUENCE is not looked at. */
  function ParsePackage(s: bytes): (r: Option<(PackageInfo, bytes)>)
    ensures r.Some? ==> |r.value.1| < |s|
  {
    var (body, rest) :- Element(SEQUENCE, s);
    var (name, b1) :- Element(OCTET_STRING, body);
    var (version, _) :- SignedInteger(8, b1);
    Some((PackageInfo(name, version), rest))
  }

  function ParsePackages(s: bytes): Option<seq<PackageInfo>>
    decreases |s|
  {
    if s == [] then Some([])
    else
      var (p, rest) :- ParsePackage(s);
      var ps :- ParsePackages(rest);
      Some([p] + ps)
  }

  function ParseDigests(s: bytes): Option<seq<bytes>>
    decreases |s|
  {
    if s == [] then Some([])
    else
      var (d, rest) :- Element(OCTET_STRING, s);
      var ds :- ParseDigests(rest);
      Some([d] + ds)
  }

  function ParseApplicationId(s: bytes): Option<ApplicationId> {
    if |s| > MAX_LENGTH then None
    else
      var (body, _) :- Element(SEQUENCE, s);
      var (pkgs, b1) :- Element(SET, body);
      var packages :- ParsePackages(pkgs);
      var (sigs, _) :- Element(SET, b1);
      var digests :- ParseDigests(sigs);
      Some(ApplicationId(packages, digests))
  }

  method DecodePackage(reader: SliceReader) returns (r: Option<PackageInfo>)
    requires reader.Valid()
    modifies reader
    ensures reader.Valid()
    ensures match ParsePackage(old(reader.Rest()))
            case None => r == None
            case Some((p, rest)) => r == Some(p) && reader.Rest() == rest
  {
    hide Element, IntegerOctets;
    var body := reader.ReadElement(SEQUENCE);
    if body.None? {
      return None;
    }
    var br := new SliceReader(body.value);
    var name := br.ReadElement(OCTET_STRING);
    if name.None? {
      return None;
    }
    var version := br.DecodeInt();
    if version.None? || |version.value| > 8 {
      return None;
    }
    var v := SignExtend(version.value, 8);
    return Some(PackageInfo(name.value, v));
  }

  /** The two `while !is_finished` loops, each pushing what it reads. */
  method DecodePackages(data: bytes) returns (r: Option<seq<PackageInfo>>)
    ensures r == ParsePackages(data)
  {
    hide ParsePackage;
    var reader := new SliceReader(data);
    var infos: seq<PackageInfo> := [];
    PrependNothing(ParsePackages(data));
    while !reader.IsFinished()
      invariant reader.Valid()
      invariant fresh(reader)
      invariant ParsePackages(data) == Prepend(infos, ParsePackages(reader.Rest()))
      decreases |reader.Rest()|
    {
      ghost var before := reader.Rest();
      var p := DecodePackage(reader);
      if p.None? {
        return None;
      }
      assert ParsePackages(before) == Prepend([p.value], ParsePackages(reader.Rest()));
      PrependTwice(infos, [p.value], ParsePackages(reader.Rest()));
      infos := infos + [p.value];
    }
    assert reader.Rest() == [] && infos + [] == infos;
    return Some(infos);
  }

  method DecodeDigests(data: bytes) returns (r: Option<seq<bytes>>)
    ensures r == ParseDigests(data)
  {
    hide Element;
    var reader := new SliceReader(data);
    var digests: seq<bytes> := [];
    PrependNothing(ParseDigests(data));
    while !reader.IsFinished()
      invariant reader.Valid()
      invariant fresh(reader)
      invariant ParseDigests(data) == Prepend(digests, ParseDigests(reader.Rest()))
      decreases |reader.Rest()|
    {
      ghost var before := reader.Rest();
      var d := reader.ReadElement(OCTET_STRING);
      if d.None? {
        return None;
      }
      assert ParseDigests(before) == Prepend([d.value], ParseDigests(reader.Rest()));
      PrependTwice(digests, [d.value], ParseDigests(reader.Rest()));
      digests := digests + [d.value];
    }
    assert reader.Rest() == [] && digests + [] == digests;
    return Some(digests);
  }

  /** `attestation_application_id`. */
  method DecodeApplicationId(data: bytes) returns (r: Option<ApplicationId>)
    ensures r == ParseApplicationId(data)
  {
    hide Element, ParsePackages, ParseDigests;
    if |data| > MAX_LENGTH {
      return None;
    }
    var reader := new SliceReader(data);
    var body := reader.ReadElement(SEQUENCE);
    if body.None? {
      return None;
    }
    var br := new SliceReader(body.value);
    var pkgs := br.ReadElement(SET);
    if pkgs.None? {
      return None;
    }
    var packages := DecodePackages(pkgs.value);
    if packages.None? {
      return None;
    }
    var sigs := br.ReadElement(SET);
    if sigs.None? {
      return None;
    }
    var digests := DecodeDigests(sigs.value);
    if digests.None? {
      return None;
    }
    return Some(ApplicationId(packages.value, digests.value));
  }

  // Encoding, and inversion.

  function EncodePackage(p: PackageInfo): bytes {
    EncodeElement(SEQUENCE, EncodeElement(OCTET_STRING, p.packageName) + EncodeInteger(p.version))
  }

  function EncodePackages(ps: seq<PackageInfo>): bytes {
    if ps == [] then [] else EncodePackage(ps[0]) + EncodePackages(ps[1..])
  }

  function EncodeDigests(ds: seq<bytes>): bytes {
    if ds == [] then [] else EncodeElement(OCTET_STRING, ds[0]) + EncodeDigests(ds[1..])
  }

  function EncodeApplicationId(id: ApplicationId): bytes {
    EncodeElement(SEQUENCE, EncodeElement(SET, EncodePackages(id.packageInfos))
                            + EncodeElement(SET, EncodeDigests(id.signatureDigests)))
  }

  predicate IsI64(v: int) {
    -0x8000_0000_0000_0000 <= v < 0x8000_0000_0000_0000
  }

  lemma PackageRoundTrip(p: PackageInfo, rest: bytes)
    requires IsI64(p.version) && |EncodePackage(p)| <= MAX_LENGTH
    ensures ParsePackage(EncodePackage(p) + rest) == Some((p, rest))
  {
    hide Element, SignedInteger;
    Pow256Values();
    EncodeIntLength(p.version, 8);
    var v := EncodeInteger(p.version);
    var body := EncodeElement(OCTET_STRING, p.packageName) + v;
    ElementRoundTrip(SEQUENCE, body, rest);
    ElementRoundTrip(OCTET_STRING, p.packageName, v);
    assert v + [] == v;
    SignedIntegerExact(8, p.version, []);
  }

  lemma PackageNotEmpty(p: PackageInfo)
    ensures EncodePackage(p) != []
  {
  }

  lemma {:induction false} PackagesRoundTrip(ps: seq<PackageInfo>)
    requires forall p | p in ps :: IsI64(p.version)
    requires |EncodePackages(ps)| <= MAX_LENGTH
    ensures ParsePackages(EncodePackages(ps)) == Some(ps)
  {
    hide ParsePackage, EncodePackage;
    if ps == [] {
    } else {
      PackageNotEmpty(ps[0]);
      PackageRoundTrip(ps[0], EncodePackages(ps[1..]));
      PackagesRoundTrip(ps[1..]);
      assert ps == [ps[0]] + ps[1..];
    }
  }

  lemma {:induction false} DigestsRoundTrip(ds: seq<bytes>)
    requires |EncodeDigests(ds)| <= MAX_LENGTH
    ensures ParseDigests(EncodeDigests(ds)) == Some(ds)
  {
    hide Element;
    if ds == [] {
    } else {
      ElementRoundTrip(OCTET_STRING, ds[0], EncodeDigests(ds[1..]));
      DigestsRoundTrip(ds[1..]);
      assert ds == [ds[0]] + ds[1..];
    }
  }

  /** Every list of packages and digests comes back from its encoding, in order. */
  lemma ApplicationIdRoundTrip(id: ApplicationId, rest: bytes)
    requires forall p | p in id.packageInfos :: IsI64(p.version)
    requires |EncodeApplicationId(id) + rest| <= MAX_LENGTH
    ensures ParseApplicationId(EncodeApplicationId(id) + rest) == Some(id)
  {
    hide Element, ParsePackages, ParseDigests, EncodePackages, EncodeDigests;
    var pkgs, sigs := EncodePackages(id.packageInfos), EncodeDigests(id.signatureDigests);
    var b1 := EncodeElement(SET, sigs);
    ElementRoundTrip(SEQUENCE, EncodeElement(SET, pkgs) + b1, rest);
    ElementRoundTrip(SET, pkgs, b1);
    assert b1 + [] == b1;
    ElementRoundTrip(SET, sigs, []);
    PackagesRoundTrip(id.packageInfos);
    DigestsRoundTrip(id.signatureDigests);
  }

  const SAMPLE_OCTETS: bytes :=
    [0x30, 0x0F, 0x31, 0x08, 0x30, 0x06, 0x04, 0x01, 0x61, 0x02, 0x01, 0x01, 0x31, 0x03, 0x04, 0x01, 0x05]

  lemma SamplePackages()
    ensures EncodePackages([PackageInfo([0x61], 1)]) == [0x30, 6, 4, 1, 0x61, 2, 1, 1]
  {
    hide EncodeElement;
    var p := PackageInfo([0x61], 1);
    ShortEncoding(OCTET_STRING, [0x61]);
    assert EncodeInt(1) == [1];
    ShortEncoding(INTEGER, [1]);
    ShortEncoding(SEQUENCE, [4, 1, 0x61, 2, 1, 1]);
    assert EncodeElement(OCTET_STRING, [0x61]) + EncodeInteger(1) == [4, 1, 0x61, 2, 1, 1];
    assert [p][1..] == [];
    assert EncodePackages([p]) == EncodePackage(p) + [];
  }

  lemma SampleDigests()
    ensures EncodeDigests([[5]]) == [4, 1, 5]
  {
    hide EncodeElement;
    ShortEncoding(OCTET_STRING, [5]);
    assert [[5]][1..] == [];
    assert EncodeDigests([[5]]) == EncodeElement(OCTET_STRING, [5]) + [];
  }

  /** These octets name one package, version 1, and one digest. */
  lemma SampleParses()
    ensures ParseApplicationId(SAMPLE_OCTETS) == Some(ApplicationId([PackageInfo([0x61], 1)], [[5]]))
  {
    hide EncodeElement, ParseApplicationId, EncodePackages, EncodeDigests;
    var id := ApplicationId([PackageInfo([0x61], 1)], [[5]]);
    SamplePackages();
    SampleDigests();
    ShortEncoding(SET, [0x30, 6, 4, 1, 0x61, 2, 1, 1]);
    ShortEncoding(SET, [4, 1, 5]);
    var body := [0x31, 8, 0x30, 6, 4, 1, 0x61, 2, 1, 1] + [0x31, 3, 4, 1, 5];
    assert EncodeElement(SET, EncodePackages(id.packageInfos)) + EncodeElement(SET, EncodeDigests(id.signatureDigests))
        == body;
    ShortEncoding(SEQUENCE, body);
    assert EncodeApplicationId(id) + [] == SAMPLE_OCTETS;
    ApplicationIdRoundTrip(id, []);
  }

  /** Octets after the version of a package, after the two SETs and after the SEQUENCE are not looked at. */
  lemma MoreIsIgnored(id: ApplicationId, more: bytes, rest: bytes)
    requires forall p | p in id.packageInfos :: IsI64(p.version)
    requires var sets := EncodeElement(SET, EncodePackages(id.packageInfos))
                         + EncodeElement(SET, EncodeDigests(id.signatureDigests));
             |EncodeElement(SEQUENCE, sets + more) + rest| <= MAX_LENGTH
    ensures var sets := EncodeElement(SET, EncodePackages(id.packageInfos))
                        + EncodeElement(SET, EncodeDigests(id.signatureDigests));
            ParseApplicationId(EncodeElement(SEQUENCE, sets + more) + rest) == Some(id)
  {
    hide Element, ParsePackages, ParseDigests, EncodePackages, EncodeDigests;
    var pkgs, sigs := EncodePackages(id.packageInfos), EncodeDigests(id.signatureDigests);
    var b1 := EncodeElement(SET, sigs) + more;
    assert EncodeElement(SET, pkgs) + EncodeElement(SET, sigs) + more == EncodeElement(SET, pkgs) + b1;
    ElementRoundTrip(SEQUENCE, EncodeElement(SET, pkgs) + b1, rest);
    ElementRoundTrip(SET, pkgs, b1);
    ElementRoundTrip(SET, sigs, more);
    PackagesRoundTrip(id.packageInfos);
    DigestsRoundTrip(id.signatureDigests);
  }

  lemma MoreInPackage(p: PackageInfo, more: bytes, rest: bytes)
    requires IsI64(p.version)
    requires |EncodeElement(OCTET_STRING, p.packageName) + EncodeInteger(p.version) + more| <= MAX_LENGTH
    ensures ParsePackage(EncodeElement(SEQUENCE, EncodeElement(OCTET_STRING, p.packageName)
                                                 + EncodeInteger(p.version) + more) + rest)
         == Some((p, rest))
  {
    hide Element, SignedInteger;
    Pow256Values();
    EncodeIntLength(p.version, 8);
    var v := EncodeInteger(p.version) + more;
    var body := EncodeElement(OCTET_STRING, p.packageName) + v;
    assert EncodeElement(OCTET_STRING, p.packageName) + EncodeInteger(p.version) + more == body;
    ElementRoundTrip(SEQUENCE, body, rest);
    ElementRoundTrip(OCTET_STRING, p.packageName, v);
    SignedIntegerExact(8, p.version, more);
  }
}
