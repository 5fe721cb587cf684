/** The Apple verifier's reading of an `attestationObject` from its CBOR value tree. */
module AttestationObjects {
  import opened Bytes
  import opened Cbor

  const FMT: bytes := Ascii("fmt")
  const AUTH_DATA: bytes := Ascii("authData")
  const ATT_STMT: bytes := Ascii("attStmt")
  const X5C: bytes := Ascii("x5c")
  const RECEIPT: bytes := Ascii("receipt")

  datatype Statement = Statement(fmt: bytes, authData: bytes, x5c: seq<bytes>, receipt: bytes)

  predicate TextKeys(es: seq<Entry>) {
    forall e | e in es :: e.key.TextString?
  }

  /** Value of the last entry whose key is the text `key`. */
  function LastValue(es: seq<Entry>, key: bytes): Option<Value> {
    if es == [] then None
    else if es[|es| - 1].key == TextString(key) then Some(es[|es| - 1].val)
    else LastValue(es[..|es| - 1], key)
  }

  /** The byte string in the last `key` entry that holds one; other values are passed over. */
  function LastBytes(es: seq<Entry>, key: bytes): Option<bytes> {
    if es == [] then None
    else
      var e := es[|es| - 1];
      if e.key == TextString(key) && e.val.ByteString? then Some(e.val.b)
      else LastBytes(es[..|es| - 1], key)
  }

  function AsText(o: Option<Value>): Option<bytes> {
    if o.Some? && o.value.TextString? then Some(o.value.t) else None
  }

  function AsBytes(o: Option<Value>): Option<bytes> {
    if o.Some? && o.value.ByteString? then Some(o.value.b) else None
  }

  /** An array of byte strings, as the strings. */
  function AsStrings(v: Value): Option<seq<bytes>> {
    if v.Array? && forall i | 0 <= i < |v.items| :: v.items[i].ByteString?
    then Some(seq(|v.items|, i requires 0 <= i < |v.items| => v.items[i].b))
    else None
  }

  /** Certificates and receipt; every `x5c` entry must be an array of byte strings, even one overridden. */
  function ReadStatement(v: Value): Option<(seq<bytes>, bytes)> {
    if !v.Map? || !TextKeys(v.entries) then None
    else if exists e | e in v.entries :: e.key == TextString(X5C) && AsStrings(e.val).None? then None
    else
      var last :- LastValue(v.entries, X5C);
      var certs :- AsStrings(last);
      var receipt := LastBytes(v.entries, RECEIPT);
      Some((certs, if receipt.Some? then receipt.value else []))
  }

  function ReadObject(v: Value): Option<Statement> {
    if !v.Map? || !TextKeys(v.entries) then None
    else
      var fmt :- AsText(LastValue(v.entries, FMT));
      var authData :- AsBytes(LastValue(v.entries, AUTH_DATA));
      var attStmt :- LastValue(v.entries, ATT_STMT);
      var (x5c, receipt) :- ReadStatement(attStmt);
      Some(Statement(fmt, authData, x5c, receipt))
  }

  function ParseAttestationObject(s: bytes): Option<Statement> {
    var (v, _) :- Item(s);
    ReadObject(v)
  }

  lemma LastValueSnoc(es: seq<Entry>, e: Entry, key: bytes)
    ensures LastValue(es + [e], key) == if e.key == TextString(key) then Some(e.val) else LastValue(es, key)
    ensures LastBytes(es + [e], key)
         == if e.key == TextString(key) && e.val.ByteString? then Some(e.val.b) else LastBytes(es, key)
  {
    assert (es + [e])[..|es|] == es;
  }

  method ReadStrings(v: Value) returns (r: Option<seq<bytes>>)
    ensures r == AsStrings(v)
  {
    if !v.Array? {
      return None;
    }
    var certs: seq<bytes> := [];
    for i := 0 to |v.items|
      invariant forall j | 0 <= j < i :: v.items[j].ByteString?
      invariant certs == seq(i, j requires 0 <= j < i => v.items[j].b)
    {
      if !v.items[i].ByteString? {
        return None;
      }
      certs := certs + [v.items[i].b];
    }
    return Some(certs);
  }

  /** The loop over the entries of `attStmt`. */
  method DecodeStatement(v: Value) returns (r: Option<(seq<bytes>, bytes)>)
    ensures r == ReadStatement(v)
  {
    hide AsStrings;
    if !v.Map? {
      return None;
    }
    var es := v.entries;
    var x5c: Option<seq<bytes>> := None;
    var receipt: bytes := [];
    for i := 0 to |es|
      invariant TextKeys(es[..i])
      invariant forall e | e in es[..i] :: e.key == TextString(X5C) ==> AsStrings(e.val).Some?
      invariant match LastValue(es[..i], X5C)
                case None => x5c == None
                case Some(last) => x5c == AsStrings(last) && x5c.Some?
      invariant receipt == var b := LastBytes(es[..i], RECEIPT); if b.Some? then b.value else []
    {
      var Entry(k, val) := es[i];
      assert es[i] in es;
      assert es[..i + 1] == es[..i] + [es[i]];
      LastValueSnoc(es[..i], es[i], X5C);
      LastValueSnoc(es[..i], es[i], RECEIPT);
      if !k.TextString? {
        return None;
      }
      if k.t == X5C {
        var certs := ReadStrings(val);
        if certs.None? {
          return None;
        }
        x5c := certs;
      } else if k.t == RECEIPT {
        if val.ByteString? {
          receipt := val.b;
        }
      }
    }
    assert es[..|es|] == es;
    if x5c.None? {
      return None;
    }
    return Some((x5c.value, receipt));
  }

  /** `decode_attestation_object`: the loop over the top-level entries. */
  method DecodeAttestationObject(s: bytes) returns (r: Option<Statement>)
    ensures r == ParseAttestationObject(s)
  {
    hide ReadStatement, Item;
    var top := Item(s);
    if top.None? || !top.value.0.Map? {
      return None;
    }
    var es := top.value.0.entries;
    var fmt: Option<bytes>, authData: Option<bytes>, attStmt: Option<Value> := None, None, None;
    for i := 0 to |es|
      invariant TextKeys(es[..i])
      invariant fmt == AsText(LastValue(es[..i], FMT))
      invariant authData == AsBytes(LastValue(es[..i], AUTH_DATA))
      invariant attStmt == LastValue(es[..i], ATT_STMT)
    {
      var Entry(k, val) := es[i];
      assert es[i] in es;
      assert es[..i + 1] == es[..i] + [es[i]];
      LastValueSnoc(es[..i], es[i], FMT);
      LastValueSnoc(es[..i], es[i], AUTH_DATA);
      LastValueSnoc(es[..i], es[i], ATT_STMT);
      if !k.TextString? {
        return None;
      }
      if k.t == FMT {
        fmt := AsText(Some(val));
      } else if k.t == AUTH_DATA {
        authData := AsBytes(Some(val));
      } else if k.t == ATT_STMT {
        attStmt := Some(val);
      }
    }
    assert es[..|es|] == es;
    if fmt.None? || authData.None? || attStmt.None? {
      return None;
    }
    var stmt := DecodeStatement(attStmt.value);
    if stmt.None? {
      return None;
    }
    return Some(Statement(fmt.value, authData.value, stmt.value.0, stmt.value.1));
  }

  // What is read, entry by entry.

  /** `v` is the value of the last entry named `key`. */
  ghost predicate Last(es: seq<Entry>, key: bytes, v: Value) {
    exists i | 0 <= i < |es| ::
      es[i].key == TextString(key) && es[i].val == v && forall j | i < j < |es| :: es[j].key != TextString(key)
  }

  lemma {:induction false} LastValueExactly(es: seq<Entry>, key: bytes, v: Value)
    ensures LastValue(es, key) == Some(v) <==> Last(es, key, v)
  {
    if es == [] {
    } else {
      var n := |es| - 1;
      LastValueExactly(es[..n], key, v);
      if es[n].key != TextString(key) && Last(es[..n], key, v) {
        var i :| 0 <= i < n && es[..n][i].key == TextString(key) && es[..n][i].val == v
          && forall j | i < j < n :: es[..n][j].key != TextString(key);
        assert es[i].key == TextString(key) && forall j | i < j < |es| :: es[j].key != TextString(key);
      }
      if es[n].key != TextString(key) && Last(es, key, v) {
        var i :| 0 <= i < |es| && es[i].key == TextString(key) && es[i].val == v
          && forall j | i < j < |es| :: es[j].key != TextString(key);
        assert es[..n][i].key == TextString(key);
      }
    }
  }

  /** `b` is in the last entry named `key` that holds a byte string. */
  ghost predicate LastString(es: seq<Entry>, key: bytes, b: bytes) {
    exists i | 0 <= i < |es| ::
      es[i] == Entry(TextString(key), ByteString(b))
      && forall j | i < j < |es| :: es[j].key != TextString(key) || !es[j].val.ByteString?
  }

  lemma {:induction false} LastBytesExactly(es: seq<Entry>, key: bytes, b: bytes)
    ensures LastBytes(es, key) == Some(b) <==> LastString(es, key, b)
  {
    if es == [] {
    } else {
      var n := |es| - 1;
      LastBytesExactly(es[..n], key, b);
      var here := es[n].key == TextString(key) && es[n].val.ByteString?;
      if !here && LastString(es[..n], key, b) {
        var i :| 0 <= i < n && es[..n][i] == Entry(TextString(key), ByteString(b))
          && forall j | i < j < n :: es[..n][j].key != TextString(key) || !es[..n][j].val.ByteString?;
        assert es[i] == Entry(TextString(key), ByteString(b))
               && forall j | i < j < |es| :: es[j].key != TextString(key) || !es[j].val.ByteString?;
      }
      if !here && LastString(es, key, b) {
        var i :| 0 <= i < |es| && es[i] == Entry(TextString(key), ByteString(b))
          && forall j | i < j < |es| :: es[j].key != TextString(key) || !es[j].val.ByteString?;
        assert es[..n][i] == Entry(TextString(key), ByteString(b));
      }
    }
  }

  /** An array of exactly these byte strings. */
  predicate IsStrings(v: Value, strings: seq<bytes>) {
    v.Array? && |v.items| == |strings| && forall i | 0 <= i < |strings| :: v.items[i] == ByteString(strings[i])
  }

  lemma AsStringsExactly(v: Value, strings: seq<bytes>)
    ensures AsStrings(v) == Some(strings) <==> IsStrings(v, strings)
  {
    if IsStrings(v, strings) {
      assert forall i | 0 <= i < |v.items| :: v.items[i].ByteString?;
      assert AsStrings(v).value == strings;
    }
  }

  /**
   An attestation statement: text keys only, every `x5c` an array of byte strings, the certificates those of
   the last one, and the receipt the last that is a byte string, or empty.
   */
  lemma StatementExactly(es: seq<Entry>, x5c: seq<bytes>, receipt: bytes)
    ensures ReadStatement(Map(es)) == Some((x5c, receipt)) <==>
              && (forall i | 0 <= i < |es| :: es[i].key.TextString?)
              && (forall i | 0 <= i < |es| && es[i].key == TextString(Ascii("x5c")) ::
                    exists strings :: IsStrings(es[i].val, strings))
              && (exists v :: Last(es, Ascii("x5c"), v) && IsStrings(v, x5c))
              && (LastString(es, Ascii("receipt"), receipt)
                  || (receipt == [] && forall b :: !LastString(es, Ascii("receipt"), b)))
  {
    hide LastValue, LastBytes, Last, LastString, AsStrings, IsStrings, Ascii;
    forall v ensures LastValue(es, X5C) == Some(v) <==> Last(es, X5C, v) {
      LastValueExactly(es, X5C, v);
    }
    forall b ensures LastBytes(es, RECEIPT) == Some(b) <==> LastString(es, RECEIPT, b) {
      LastBytesExactly(es, RECEIPT, b);
    }
    forall v, strings ensures AsStrings(v) == Some(strings) <==> IsStrings(v, strings) {
      AsStringsExactly(v, strings);
    }
    forall i | 0 <= i < |es| ensures es[i] in es {
    }
    forall i | 0 <= i < |es| ensures AsStrings(es[i].val).Some? <==> exists strings :: IsStrings(es[i].val, strings) {
      if AsStrings(es[i].val).Some? {
        assert IsStrings(es[i].val, AsStrings(es[i].val).value);
      }
    }
    if LastValue(es, X5C).Some? {
      assert Last(es, X5C, LastValue(es, X5C).value);
    }
    if LastBytes(es, RECEIPT).Some? {
      assert LastString(es, RECEIPT, LastBytes(es, RECEIPT).value);
    }
  }

  /** An attestation object: text keys only, and the last value of each of the three that are read. */
  lemma ObjectExactly(es: seq<Entry>, r: Statement)
    ensures ReadObject(Map(es)) == Some(r) <==>
              && (forall i | 0 <= i < |es| :: es[i].key.TextString?)
              && Last(es, Ascii("fmt"), TextString(r.fmt))
              && Last(es, Ascii("authData"), ByteString(r.authData))
              && exists v :: Last(es, Ascii("attStmt"), v) && ReadStatement(v) == Some((r.x5c, r.receipt))
  {
    hide LastValue, Last, ReadStatement, Ascii;
    LastValueExactly(es, FMT, TextString(r.fmt));
    LastValueExactly(es, AUTH_DATA, ByteString(r.authData));
    forall v ensures LastValue(es, ATT_STMT) == Some(v) <==> Last(es, ATT_STMT, v) {
      LastValueExactly(es, ATT_STMT, v);
    }
    forall i | 0 <= i < |es| ensures es[i] in es {
    }
    if ReadObject(Map(es)) == Some(r) {
      var v := LastValue(es, ATT_STMT).value;
      var pair := ReadStatement(v).value;
      assert pair == (pair.0, pair.1);
      assert Last(es, ATT_STMT, v) && ReadStatement(v) == Some((r.x5c, r.receipt));
    }
  }

  /** Octets after the object are not looked at. */
  lemma MoreIsIgnored(v: Value, rest: bytes)
    requires WellFormed(v)
    ensures ParseAttestationObject(Encode(v) + rest) == ReadObject(v)
  {
    hide Item, Encode, ReadObject, WellFormed;
    ItemRoundTrip(v, rest);
  }
}
