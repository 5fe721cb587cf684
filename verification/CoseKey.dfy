/** P-256 keys as COSE_Key maps (section 7 of RFC 9052, section 7.1.1 of RFC 9053). */
module CoseKeys {
  import opened Bytes
  import opened Cbor

  const KTY: int := 1
  const ALG: int := 3
  const CRV: int := -1
  const X: int := -2
  const Y: int := -3

  const I64_MAX: nat := 0x7FFF_FFFF_FFFF_FFFF

  /** The value of an integer item that fits in 64 signed bits. */
  function AsI64(v: Value): Option<int> {
    match v
    case UInt(n) => if n <= I64_MAX then Some(n) else None
    case NInt(n) => if n <= I64_MAX then Some(-1 - n) else None
    case _ => None
  }

  /** Value of the last entry whose key is the integer `key`; other keys are passed over. */
  function LastParameter(es: seq<Entry>, key: int): Option<Value> {
    if es == [] then None
    else if AsI64(es[|es| - 1].key) == Some(key) then Some(es[|es| - 1].val)
    else LastParameter(es[..|es| - 1], key)
  }

  function IntegerOf(o: Option<Value>): Option<int> {
    var v :- o;
    AsI64(v)
  }

  function BytesOf(o: Option<Value>): Option<bytes> {
    if o.Some? && o.value.ByteString? then Some(o.value.b) else None
  }

  /** The X9.63 uncompressed point of a key map. */
  function ReadKey(es: seq<Entry>): Option<bytes> {
    var x, y := BytesOf(LastParameter(es, X)), BytesOf(LastParameter(es, Y));
    if IntegerOf(LastParameter(es, KTY)) != Some(2)
       || IntegerOf(LastParameter(es, ALG)) != Some(-7)
       || IntegerOf(LastParameter(es, CRV)) != Some(1)
       || x.None? || y.None? || |x.value| != 32 || |y.value| != 32
    then None
    else Some([0x04] + x.value + y.value)
  }

  function ParseKey(s: bytes): Option<bytes> {
    var (v, _) :- Item(s);
    if v.Map? then ReadKey(v.entries) else None
  }

  /** A key that parses is 04 and two coordinates of 32 octets. */
  lemma ParsedKeyForm(s: bytes)
    requires ParseKey(s).Some?
    ensures |ParseKey(s).value| == 65 && ParseKey(s).value[0] == 4
  {
    hide Item, LastParameter, AsI64;
  }

  lemma LastParameterSnoc(es: seq<Entry>, e: Entry, key: int)
    ensures LastParameter(es + [e], key) == if AsI64(e.key) == Some(key) then Some(e.val) else LastParameter(es, key)
  {
    assert (es + [e])[..|es|] == es;
  }

  /** `extract_p256_pk`: the loop over the entries and the assembly of the 65 octets in place. */
  method ExtractP256(s: bytes) returns (r: Option<bytes>)
    ensures r == ParseKey(s)
    ensures r.Some? ==> |r.value| == 65
  {
    hide Item;
    var item := Item(s);
    if item.None? || !item.value.0.Map? {
      return None;
    }
    var es := item.value.0.entries;
    var kty: Option<int>, alg: Option<int>, crv: Option<int> := None, None, None;
    var x: Option<bytes>, y: Option<bytes> := None, None;
    for i := 0 to |es|
      invariant kty == IntegerOf(LastParameter(es[..i], KTY))
      invariant alg == IntegerOf(LastParameter(es[..i], ALG))
      invariant crv == IntegerOf(LastParameter(es[..i], CRV))
      invariant x == BytesOf(LastParameter(es[..i], X))
      invariant y == BytesOf(LastParameter(es[..i], Y))
    {
      var Entry(k, v) := es[i];
      assert es[..i + 1] == es[..i] + [es[i]];
      LastParameterSnoc(es[..i], es[i], KTY);
      LastParameterSnoc(es[..i], es[i], ALG);
      LastParameterSnoc(es[..i], es[i], CRV);
      LastParameterSnoc(es[..i], es[i], X);
      LastParameterSnoc(es[..i], es[i], Y);
      var key := AsI64(k);
      if key.Some? {
        if key.value == KTY {
          kty := AsI64(v);
        } else if key.value == ALG {
          alg := AsI64(v);
        } else if key.value == CRV {
          crv := AsI64(v);
        } else if key.value == X {
          x := BytesOf(Some(v));
        } else if key.value == Y {
          y := BytesOf(Some(v));
        }
      }
    }
    assert es[..|es|] == es;
    if kty != Some(2) || alg != Some(-7) || crv != Some(1) || x.None? || y.None?
       || |x.value| != 32 || |y.value| != 32
    {
      return None;
    }
    var pk := new byte[65](_ => 0);
    pk[0] := 0x04;
    forall i | 1 <= i < 33 {
      pk[i] := x.value[i - 1];
    }
    forall i | 33 <= i < 65 {
      pk[i] := y.value[i - 33];
    }
    assert pk[..] == [0x04] + x.value + y.value;
    return Some(pk[..]);
  }

  // What is read, entry by entry.

  /** The integer item for `k`, as CBOR writes it. */
  function IntegerItem(k: int): Value {
    if k >= 0 then UInt(k) else NInt(-1 - k)
  }

  /** `v` is the value of the last entry whose key is the integer `k`. */
  ghost predicate Last(es: seq<Entry>, k: int, v: Value) {
    exists i | 0 <= i < |es| ::
      es[i].key == IntegerItem(k) && es[i].val == v && forall j | i < j < |es| :: es[j].key != IntegerItem(k)
  }

  lemma {:induction false} LastParameterExactly(es: seq<Entry>, k: int, v: Value)
    requires -1000 < k < 1000
    ensures LastParameter(es, k) == Some(v) <==> Last(es, k, v)
  {
    if es == [] {
    } else {
      var n := |es| - 1;
      LastParameterExactly(es[..n], k, v);
      assert AsI64(es[n].key) == Some(k) <==> es[n].key == IntegerItem(k);
      if es[n].key != IntegerItem(k) && Last(es[..n], k, v) {
        var i :| 0 <= i < n && es[..n][i].key == IntegerItem(k) && es[..n][i].val == v
          && forall j | i < j < n :: es[..n][j].key != IntegerItem(k);
        assert es[i].key == IntegerItem(k) && forall j | i < j < |es| :: es[j].key != IntegerItem(k);
      }
      if es[n].key != IntegerItem(k) && Last(es, k, v) {
        var i :| 0 <= i < |es| && es[i].key == IntegerItem(k) && es[i].val == v
          && forall j | i < j < |es| :: es[j].key != IntegerItem(k);
        assert es[..n][i].key == IntegerItem(k);
      }
    }
  }

  lemma IntegerIs(o: Option<Value>, k: int)
    requires -1000 < k < 1000
    ensures IntegerOf(o) == Some(k) <==> o == Some(IntegerItem(k))
  {
  }

  /**
   A key is read exactly from the maps whose last entries 1, 3 and -1 say EC2, ES256 and P-256, and whose last
   entries -2 and -3 are byte strings of 32 octets; and it is 04 and the two, in this order.
   */
  lemma ReadKeyExactly(es: seq<Entry>, pk: bytes)
    ensures ReadKey(es) == Some(pk) <==>
              && Last(es, 1, UInt(2)) && Last(es, 3, NInt(6)) && Last(es, -1, UInt(1))
              && exists x: bytes, y: bytes ::
                   && |x| == 32 && |y| == 32 && pk == [4] + x + y
                   && Last(es, -2, ByteString(x)) && Last(es, -3, ByteString(y))
  {
    hide LastParameter, Last;
    forall k: int, v: Value | -1000 < k < 1000 ensures LastParameter(es, k) == Some(v) <==> Last(es, k, v) {
      LastParameterExactly(es, k, v);
    }
    IntegerIs(LastParameter(es, 1), 2);
    IntegerIs(LastParameter(es, 3), -7);
    IntegerIs(LastParameter(es, -1), 1);
    assert Last(es, 1, UInt(2)) <==> LastParameter(es, 1) == Some(UInt(2));
    assert Last(es, 3, NInt(6)) <==> LastParameter(es, 3) == Some(NInt(6));
    assert Last(es, -1, UInt(1)) <==> LastParameter(es, -1) == Some(UInt(1));
    if ReadKey(es) == Some(pk) {
      var x, y := BytesOf(LastParameter(es, -2)).value, BytesOf(LastParameter(es, -3)).value;
      assert Last(es, -2, ByteString(x)) && Last(es, -3, ByteString(y));
    }
  }

  /** Octets after the map are not looked at, and anything but a map is refused. */
  lemma MoreIsIgnored(v: Value, rest: bytes)
    requires WellFormed(v)
    ensures ParseKey(Encode(v) + rest) == if v.Map? then ReadKey(v.entries) else None
  {
    hide Item, Encode, ReadKey, WellFormed;
    ItemRoundTrip(v, rest);
  }
}
