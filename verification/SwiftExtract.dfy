/** The iOS app's extraction of the attested key with its streaming cursor. */
module SwiftExtract {
  import opened Bytes
  import opened SwiftReader

  const AUTH_DATA: bytes := Ascii("authData")

  /** The loop over `n` top-level entries, keeping the last `authData`. */
  function TopEntries(s: bytes, pos: nat, n: nat, found: Option<bytes>): Outcome<Option<bytes>>
    decreases n
  {
    if n == 0 then Ok(found)
    else
      var (key, p) :- StringAt(s, pos, 3);
      if key == AUTH_DATA then
        var (v, q) :- StringAt(s, p, 2);
        TopEntries(s, q, n - 1, Some(v))
      else
        var q :- SkipAt(s, p);
        TopEntries(s, q, n - 1, found)
  }

  datatype KeyFields = KeyFields(kty: Option<int>, crv: Option<int>, x: Option<bytes>, y: Option<bytes>)

  /** One entry of the key map: the fields after it and where it ends. */
  function KeyEntry(s: bytes, pos: nat, f: KeyFields): Outcome<(KeyFields, nat)> {
    var (k, p) :- IntAt(s, pos);
    match k
    case 1 =>
      var (v, q) :- IntAt(s, p);
      Ok((f.(kty := Some(v)), q))
    case 3 =>
      var (_, q) :- IntAt(s, p);
      Ok((f, q))
    case -1 =>
      var (v, q) :- IntAt(s, p);
      Ok((f.(crv := Some(v)), q))
    case -2 =>
      var (v, q) :- StringAt(s, p, 2);
      Ok((f.(x := Some(v)), q))
    case -3 =>
      var (v, q) :- StringAt(s, p, 2);
      Ok((f.(y := Some(v)), q))
    case _ =>
      var q :- SkipAt(s, p);
      Ok((f, q))
  }

  function KeyEntries(s: bytes, pos: nat, n: nat, f: KeyFields): Outcome<KeyFields>
    decreases n
  {
    if n == 0 then Ok(f)
    else
      var (g, q) :- KeyEntry(s, pos, f);
      KeyEntries(s, q, n - 1, g)
  }

  /** The checks on the collected fields and the X9.63 point they make. */
  function Assemble(f: KeyFields): Outcome<bytes> {
    if f.kty != Some(2) || f.crv != Some(1) then Throws
    else if f.x.None? || f.y.None? || |f.x.value| != 32 || |f.y.value| != 32 then Throws
    else Ok([0x04] + f.x.value + f.y.value)
  }

  const NO_FIELDS: KeyFields := KeyFields(None, None, None, None)

  function KeyOf(cose: bytes): Outcome<bytes> {
    var (n, p) :- MapHeaderAt(cose, 0);
    var f :- KeyEntries(cose, p, n, NO_FIELDS);
    Assemble(f)
  }

  function KeyOfAuthData(ad: bytes): Outcome<bytes> {
    if |ad| < 55 then Throws
    else
      var start := 55 + (ad[53] as int * 256 + ad[54] as int);
      if start > |ad| then Throws else KeyOf(ad[start..])
  }

  function ExtractKey(s: bytes): Outcome<bytes> {
    var (n, p) :- MapHeaderAt(s, 0);
    var found :- TopEntries(s, p, n, None);
    if found.None? then Throws else KeyOfAuthData(found.value)
  }

  method ReadAuthData(s: bytes) returns (r: Outcome<Option<bytes>>)
    ensures r == match MapHeaderAt(s, 0)
                 case Ok((n, p)) => TopEntries(s, p, n, None)
                 case Throws => Throws
                 case Traps => Traps
  {
    hide StringAt, SkipAt;
    var reader := new CborReader(s);
    var n :- reader.ReadMapHeader();
    ghost var start := reader.pos;
    var found: Option<bytes> := None;
    for i := 0 to n
      invariant fresh(reader) && reader.data == s
      invariant TopEntries(s, start, n, None) == TopEntries(s, reader.pos, n - i, found)
    {
      var key :- reader.ReadString(3);
      if key == AUTH_DATA {
        var v :- reader.ReadString(2);
        found := Some(v);
      } else {
        var once, _ := reader.SkipValue();
        if !once.Ok? {
          return once.PropagateFailure();
        }
      }
    }
    return Ok(found);
  }

  method ReadKeyEntry(reader: CborReader, f: KeyFields) returns (r: Outcome<KeyFields>)
    modifies reader
    ensures match KeyEntry(reader.data, old(reader.pos), f)
            case Ok((g, q)) => r == Ok(g) && reader.pos == q
            case Throws => r == Throws
            case Traps => r == Traps
  {
    hide IntAt, StringAt, SkipAt;
    var k :- reader.ReadInt();
    if k == 1 {
      var v :- reader.ReadInt();
      return Ok(f.(kty := Some(v)));
    } else if k == 3 {
      var _ :- reader.ReadInt();
      return Ok(f);
    } else if k == -1 {
      var v :- reader.ReadInt();
      return Ok(f.(crv := Some(v)));
    } else if k == -2 {
      var v :- reader.ReadString(2);
      return Ok(f.(x := Some(v)));
    } else if k == -3 {
      var v :- reader.ReadString(2);
      return Ok(f.(y := Some(v)));
    }
    var once, _ := reader.SkipValue();
    if !once.Ok? {
      return once.PropagateFailure();
    }
    return Ok(f);
  }

  method ReadKeyFields(cose: bytes) returns (r: Outcome<KeyFields>)
    ensures r == match MapHeaderAt(cose, 0)
                 case Ok((n, p)) => KeyEntries(cose, p, n, NO_FIELDS)
                 case Throws => Throws
                 case Traps => Traps
  {
    hide KeyEntry;
    var reader := new CborReader(cose);
    var n :- reader.ReadMapHeader();
    ghost var start := reader.pos;
    var f := NO_FIELDS;
    for i := 0 to n
      invariant fresh(reader) && reader.data == cose
      invariant KeyEntries(cose, start, n, NO_FIELDS) == KeyEntries(cose, reader.pos, n - i, f)
    {
      f :- ReadKeyEntry(reader, f);
    }
    return Ok(f);
  }

  /** `extractAttestedPublicKey`. */
  method ExtractAttestedPublicKey(s: bytes) returns (r: Outcome<bytes>)
    ensures r == ExtractKey(s)
  {
    hide MapHeaderAt, TopEntries, KeyEntries;
    var found :- ReadAuthData(s);
    if found.None? {
      return Throws;
    }
    var ad := found.value;
    if |ad| < 55 {
      return Throws;
    }
    var start := 55 + (ad[53] as int * 256 + ad[54] as int);
    if start > |ad| {
      return Throws;
    }
    var f :- ReadKeyFields(ad[start..]);
    return Assemble(f);
  }
}
