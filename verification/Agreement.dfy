/**
 The cursor of the iOS app against the value tree of the Apple verifier: skipping is exact on whole
 items, and the two extractors of the attested key agree exactly when the cursor can read every
 entry it looks at.
 */
module Agreement {
  import opened Bytes
  import opened Cbor
  import opened SwiftReader
  import AttestationObjects
  import AuthData
  import CoseKeys
  import SwiftExtract

  /** Where the item or items ending with `rest` left off in `s`. */
  function EndOf(s: bytes, rest: bytes): nat
    requires |rest| <= |s|
  {
    |s| - |rest|
  }

  /** Reading an initial octet and its argument from the input at `pos` is reading a head there. */
  lemma HeadAt(s: bytes, pos: nat)
    requires pos <= |s|
    ensures match Head(s[pos..])
            case Some((major, arg, used)) =>
              && pos < |s| && major == s[pos] / 32
              && LengthAt(s, pos + 1, s[pos] % 32) == Ok((arg, pos + used))
              && s[pos..][used..] == s[pos + used..]
            case None => pos == |s| || LengthAt(s, pos + 1, s[pos] % 32) == Throws
  {
    if pos < |s| && 24 <= s[pos] % 32 <= 27 {
      var n := ArgumentOctets(s[pos] % 32);
      if pos + 1 + n <= |s| {
        assert s[pos..][1..1 + n] == s[pos + 1..pos + 1 + n];
      }
    }
  }

  lemma {:induction false} ItemsCount(s: bytes, n: nat)
    requires Items(s, n).Some?
    ensures |Items(s, n).value.1| + n <= |s|
    decreases n
  {
    if n == 0 {
    } else {
      ItemsCount(Item(s).value.1, n - 1);
    }
  }

  lemma SkipFlat(s: bytes, pos: nat)
    requires pos <= |s| <= INT_MAX && Item(s[pos..]).Some? && Head(s[pos..]).value.0 < 4
    ensures var rest := Item(s[pos..]).value.1;
            SkipAt(s, pos) == Ok(EndOf(s, rest)) && rest == s[EndOf(s, rest)..]
  {
    hide Head, LengthAt, Paired, Items, SkipsAt;
    HeadAt(s, pos);
  }

  /** A whole item, nested to any depth, is stepped over to exactly its end, whatever follows it. */
  lemma {:induction false} SkipComplete(s: bytes, pos: nat)
    requires pos <= |s| <= INT_MAX && Item(s[pos..]).Some?
    ensures var rest := Item(s[pos..]).value.1;
            SkipAt(s, pos) == Ok(EndOf(s, rest)) && rest == s[EndOf(s, rest)..]
    decreases |s| - pos, 0, 0
  {
    hide Head, LengthAt, Paired, Items, SkipsAt;
    HeadAt(s, pos);
    var (major, arg, used) := Head(s[pos..]).value;
    if major >= 4 {
      var n := if major == 4 then arg else 2 * arg;
      ItemsCount(s[pos + used..], n);
      SkipsComplete(s, pos + used, n);
    } else {
      SkipFlat(s, pos);
    }
  }

  lemma {:induction false} SkipsComplete(s: bytes, pos: nat, n: nat)
    requires pos <= |s| <= INT_MAX && Items(s[pos..], n).Some?
    ensures var rest := Items(s[pos..], n).value.1;
            SkipsAt(s, pos, n) == Ok(EndOf(s, rest)) && rest == s[EndOf(s, rest)..]
    decreases |s| - pos, 1, n
  {
    hide Item, SkipAt;
    if n == 0 {
    } else {
      SkipComplete(s, pos);
      SkipsComplete(s, EndOf(s, Item(s[pos..]).value.1), n - 1);
    }
  }

  /** A skip that stays within the input has stepped over a whole item. */
  lemma {:induction false} SkipSound(s: bytes, pos: nat)
    requires SkipAt(s, pos).Ok? && SkipAt(s, pos).value <= |s|
    ensures pos < |s| && Item(s[pos..]).Some? && Item(s[pos..]).value.1 == s[SkipAt(s, pos).value..]
    decreases Left(s, pos), 0, 0
  {
    hide Head, LengthAt, Paired;
    HeadAt(s, pos);
    var (major, arg, used) := Head(s[pos..]).value;
    if major == 4 {
      SkipsSound(s, pos + used, arg);
    } else if major == 5 {
      SkipsSound(s, pos + used, 2 * arg);
    }
  }

  lemma {:induction false} SkipsSound(s: bytes, pos: nat, n: nat)
    requires SkipsAt(s, pos, n).Ok? && SkipsAt(s, pos, n).value <= |s|
    ensures pos <= |s| && Items(s[pos..], n).Some? && Items(s[pos..], n).value.1 == s[SkipsAt(s, pos, n).value..]
    decreases Left(s, pos), 1, n
  {
    hide Item, SkipAt;
    if n == 0 {
    } else {
      var p := SkipAt(s, pos).value;
      SkipsSound(s, p, n - 1);
      SkipSound(s, pos);
    }
  }

  /** `skipValue` ends within the input exactly on whole items, and then exactly at their end. */
  lemma SkipExact(s: bytes, pos: nat, end: nat)
    requires pos <= |s| <= INT_MAX
    ensures SkipAt(s, pos) == Ok(end) && end <= |s|
            <==> Item(s[pos..]).Some? && end == EndOf(s, Item(s[pos..]).value.1)
  {
    hide Item, SkipAt;
    if Item(s[pos..]).Some? {
      SkipComplete(s, pos);
    }
    if SkipAt(s, pos) == Ok(end) && end <= |s| {
      SkipSound(s, pos);
    }
  }

  /** A string is stepped over by its length alone, whether or not its octets are there. */
  lemma SkipUnchecked(s: bytes, pos: nat, n: nat, q: nat)
    requires pos < |s| && (s[pos] / 32 == 2 || s[pos] / 32 == 3)
    requires LengthAt(s, pos + 1, s[pos] % 32) == Ok((n, q)) && q + n <= INT_MAX
    ensures SkipAt(s, pos) == Ok(q + n)
  {
  }

  lemma LengthExtends(s: bytes, t: bytes, pos: nat, info: nat)
    requires LengthAt(s, pos, info).Ok?
    ensures LengthAt(s + t, pos, info) == LengthAt(s, pos, info)
  {
    var x := s + t;
    if 24 <= info <= 27 {
      var n := ArgumentOctets(info);
      assert x[pos..pos + n] == s[pos..pos + n];
    }
  }

  /** More octets at the end change nothing about a skip that succeeded. */
  lemma {:induction false} SkipExtends(s: bytes, t: bytes, pos: nat)
    requires SkipAt(s, pos).Ok?
    ensures SkipAt(s + t, pos) == SkipAt(s, pos)
    decreases Left(s, pos), 0, 0
  {
    hide LengthAt;
    var x := s + t;
    assert x[pos] == s[pos];
    var major, info := s[pos] / 32, s[pos] % 32;
    LengthExtends(s, t, pos + 1, info);
    if major >= 4 {
      var (v, q) := LengthAt(s, pos + 1, info).value;
      SkipsExtend(s, t, q, if major == 4 then v else 2 * v);
    }
  }

  lemma {:induction false} SkipsExtend(s: bytes, t: bytes, pos: nat, n: nat)
    requires SkipsAt(s, pos, n).Ok?
    ensures SkipsAt(s + t, pos, n) == SkipsAt(s, pos, n)
    decreases Left(s, pos), 1, n
  {
    hide SkipAt;
    if n == 0 {
    } else {
      SkipExtends(s, t, pos);
      SkipsExtend(s, t, SkipAt(s, pos).value, n - 1);
    }
  }

  /**
   Past the end of the input `skipValue` only ever stops because the last string was truncated: with the
   missing octets, whatever they are, there is a whole item that ends there.
   */
  lemma SkipOvershoots(s: bytes, pos: nat, t: bytes)
    requires SkipAt(s, pos).Ok? && SkipAt(s, pos).value == |s| + |t|
    ensures pos < |s| && Item((s + t)[pos..]).Some? && Item((s + t)[pos..]).value.1 == []
  {
    hide Item;
    SkipExtends(s, t, pos);
    SkipSound(s + t, pos);
  }

  /** The typed reads succeed on a whole item exactly when it has the type asked for. */
  lemma StringOfItem(s: bytes, pos: nat)
    requires pos <= |s| <= INT_MAX && Item(s[pos..]).Some?
    ensures var (v, rest) := Item(s[pos..]).value;
            && StringAt(s, pos, 2) == (if v.ByteString? then Ok((v.b, EndOf(s, rest))) else Throws)
            && StringAt(s, pos, 3) == (if v.TextString? then Ok((v.t, EndOf(s, rest))) else Throws)
  {
    hide Head, LengthAt, Items, Paired;
    HeadAt(s, pos);
    var (major, arg, used) := Head(s[pos..]).value;
    if major == 2 || major == 3 {
      assert s[pos + used..][..arg] == s[pos + used..pos + used + arg];
    }
  }

  lemma IntOfItem(s: bytes, pos: nat)
    requires pos <= |s| <= INT_MAX && Item(s[pos..]).Some?
    ensures var (v, rest) := Item(s[pos..]).value;
            if CoseKeys.AsI64(v).Some? then IntAt(s, pos) == Ok((CoseKeys.AsI64(v).value, EndOf(s, rest)))
            else !IntAt(s, pos).Ok?
  {
    hide Head, LengthAt, Items, Paired;
    HeadAt(s, pos);
  }

  /** Integers of up to 63 bits are read by value; larger ones stop the program; anything else is an error. */
  lemma IntExactly(s: bytes, pos: nat)
    requires pos <= |s| <= INT_MAX && Item(s[pos..]).Some?
    ensures var (v, rest) := Item(s[pos..]).value;
            match v
            case UInt(n) => IntAt(s, pos) == if n < 0x8000_0000_0000_0000 then Ok((n, EndOf(s, rest))) else Traps
            case NInt(n) => IntAt(s, pos) == if n < 0x8000_0000_0000_0000 then Ok((-1 - n, EndOf(s, rest))) else Traps
            case _ => !IntAt(s, pos).Ok?
  {
    hide Head, LengthAt, Items, Paired;
    HeadAt(s, pos);
  }

  lemma MapHeaderOfItem(s: bytes)
    requires |s| <= INT_MAX && Item(s).Some? && Item(s).value.0.Map?
    ensures var es := Item(s).value.0.entries;
            exists p | 0 <= p <= |s| :: MapHeaderAt(s, 0) == Ok((|es|, p))
              && Items(s[p..], 2 * |es|).Some? && Paired(Items(s[p..], 2 * |es|).value.0) == es
  {
    hide Head, LengthAt, Items, Paired;
    HeadAt(s, 0);
    assert s[0..] == s;
    var (major, arg, used) := Head(s).value;
    ItemsCount(s[used..], 2 * arg);
  }

  // The top-level map.

  /** Every `authData` entry holds a byte string. */
  predicate AuthDataReadable(es: seq<Entry>) {
    forall e | e in es :: e.key == TextString(SwiftExtract.AUTH_DATA) ==> e.val.ByteString?
  }

  lemma {:induction false} LastValueCons(e: Entry, es: seq<Entry>, key: bytes)
    ensures AttestationObjects.LastValue([e] + es, key)
         == if AttestationObjects.LastValue(es, key).Some? then AttestationObjects.LastValue(es, key)
            else if e.key == TextString(key) then Some(e.val) else None
  {
    if es == [] {
      assert [e] + es == [] + [e];
      AttestationObjects.LastValueSnoc([], e, key);
    } else {
      var n := |es| - 1;
      LastValueCons(e, es[..n], key);
      assert [e] + es == ([e] + es[..n]) + [es[n]];
      AttestationObjects.LastValueSnoc([e] + es[..n], es[n], key);
    }
  }

  lemma {:induction false} LastValueIn(es: seq<Entry>, key: bytes)
    requires AttestationObjects.LastValue(es, key).Some?
    ensures Entry(TextString(key), AttestationObjects.LastValue(es, key).value) in es
  {
    var n := |es| - 1;
    if es[n].key == TextString(key) {
      assert es[n] == Entry(TextString(key), es[n].val);
    } else {
      LastValueIn(es[..n], key);
    }
  }

  function AuthDataAfter(es: seq<Entry>, found: Option<bytes>): Option<bytes> {
    var v := AttestationObjects.LastValue(es, SwiftExtract.AUTH_DATA);
    if v.None? then found else AttestationObjects.AsBytes(v)
  }

  /** The first entry of a map, read by the cursor and by the tree decoder. */
  lemma FirstEntry(s: bytes, pos: nat, n: nat)
    requires pos <= |s| <= INT_MAX && n > 0 && Items(s[pos..], 2 * n).Some?
    ensures var es := Paired(Items(s[pos..], 2 * n).value.0);
            var p := Item(s[pos..]).value.1;
            && Item(s[pos..]).Some? && es[0].key == Item(s[pos..]).value.0
            && p == s[EndOf(s, p)..] && Item(p).Some? && es[0].val == Item(p).value.0
            && var q := Item(p).value.1;
            && q == s[EndOf(s, q)..] && Items(q, 2 * (n - 1)).Some?
            && es == [es[0]] + Paired(Items(q, 2 * (n - 1)).value.0)
            && SkipAt(s, EndOf(s, p)) == Ok(EndOf(s, q))
  {
    hide Item, SkipAt;
    TwoItems(s[pos..], 2 * n);
    SkipComplete(s, pos);
    var p := Item(s[pos..]).value.1;
    SkipComplete(s, EndOf(s, p));
    var items := Items(s[pos..], 2 * n).value.0;
    assert items[2..] == Items(Item(p).value.1, 2 * n - 2).value.0;
  }

  lemma NoEntries(s: bytes)
    ensures Items(s, 0) == Some(([], s)) && Paired([]) == []
    ensures AttestationObjects.LastValue([], SwiftExtract.AUTH_DATA) == None
    ensures forall k :: CoseKeys.LastParameter([], k) == None
  {
  }

  lemma {:induction false} TopAgrees(s: bytes, pos: nat, n: nat, found: Option<bytes>)
    requires pos <= |s| <= INT_MAX && Items(s[pos..], 2 * n).Some?
    requires AttestationObjects.TextKeys(Paired(Items(s[pos..], 2 * n).value.0))
    ensures var es := Paired(Items(s[pos..], 2 * n).value.0);
            if AuthDataReadable(es) then SwiftExtract.TopEntries(s, pos, n, found) == Ok(AuthDataAfter(es, found))
            else !SwiftExtract.TopEntries(s, pos, n, found).Ok?
    decreases n
  {
    hide Item, Items, SkipAt, StringAt, Paired, AttestationObjects.LastValue;
    if n == 0 {
      NoEntries(s[pos..]);
    } else {
      FirstEntry(s, pos, n);
      var es := Paired(Items(s[pos..], 2 * n).value.0);
      var p := Item(s[pos..]).value.1;
      var q := Item(p).value.1;
      var tail := Paired(Items(q, 2 * (n - 1)).value.0);
      StringOfItem(s, pos);
      StringOfItem(s, EndOf(s, p));
      assert es[0] in es && forall e | e in tail :: e in es;
      assert AuthDataReadable(es) <==> AuthDataReadable([es[0]]) && AuthDataReadable(tail);
      LastValueCons(es[0], tail, SwiftExtract.AUTH_DATA);
      var key := es[0].key;
      assert key.TextString?;
      TopAgrees(s, EndOf(s, q), n - 1,
                if key.t == SwiftExtract.AUTH_DATA && es[0].val.ByteString? then Some(es[0].val.b) else found);
    }
  }

  // The key map.

  /** The cursor can read this entry: an integer key, and a value of the type it expects for it. */
  predicate EntryReadable(e: Entry) {
    var k := CoseKeys.AsI64(e.key);
    && k.Some?
    && (k.value in {1, 3, -1} ==> CoseKeys.AsI64(e.val).Some?)
    && (k.value in {-2, -3} ==> e.val.ByteString?)
  }

  predicate KeyReadable(es: seq<Entry>) {
    forall e | e in es :: EntryReadable(e)
  }

  function UpdateFields(f: SwiftExtract.KeyFields, e: Entry): SwiftExtract.KeyFields
    requires EntryReadable(e)
  {
    var k := CoseKeys.AsI64(e.key).value;
    SwiftExtract.KeyFields(
      if k == 1 then CoseKeys.AsI64(e.val) else f.kty,
      if k == -1 then CoseKeys.AsI64(e.val) else f.crv,
      if k == -2 then Some(e.val.b) else f.x,
      if k == -3 then Some(e.val.b) else f.y)
  }

  lemma EntryAgrees(s: bytes, pos: nat, n: nat, f: SwiftExtract.KeyFields)
    requires pos <= |s| <= INT_MAX && n > 0 && Items(s[pos..], 2 * n).Some?
    ensures var e := Paired(Items(s[pos..], 2 * n).value.0)[0];
            if EntryReadable(e) then
              Item(s[pos..]).Some? && Item(Item(s[pos..]).value.1).Some?
              && SwiftExtract.KeyEntry(s, pos, f)
                 == Ok((UpdateFields(f, e), EndOf(s, Item(Item(s[pos..]).value.1).value.1)))
            else !SwiftExtract.KeyEntry(s, pos, f).Ok?
  {
    hide Item, Items, SkipAt, StringAt, IntAt, Paired, CoseKeys.AsI64;
    FirstEntry(s, pos, n);
    var p := Item(s[pos..]).value.1;
    IntOfItem(s, pos);
    IntOfItem(s, EndOf(s, p));
    StringOfItem(s, EndOf(s, p));
  }

  lemma {:induction false} LastParameterCons(e: Entry, es: seq<Entry>, key: int)
    ensures CoseKeys.LastParameter([e] + es, key)
         == if CoseKeys.LastParameter(es, key).Some? then CoseKeys.LastParameter(es, key)
            else if CoseKeys.AsI64(e.key) == Some(key) then Some(e.val) else None
  {
    if es == [] {
      assert [e] + es == [] + [e];
      CoseKeys.LastParameterSnoc([], e, key);
    } else {
      var n := |es| - 1;
      LastParameterCons(e, es[..n], key);
      assert [e] + es == ([e] + es[..n]) + [es[n]];
      CoseKeys.LastParameterSnoc([e] + es[..n], es[n], key);
    }
  }

  /** What the cursor has collected after all of `es`, starting from `f`. */
  function FieldsAfter(es: seq<Entry>, f: SwiftExtract.KeyFields): SwiftExtract.KeyFields {
    var kty, crv := CoseKeys.LastParameter(es, CoseKeys.KTY), CoseKeys.LastParameter(es, CoseKeys.CRV);
    var x, y := CoseKeys.LastParameter(es, CoseKeys.X), CoseKeys.LastParameter(es, CoseKeys.Y);
    SwiftExtract.KeyFields(
      if kty.Some? then CoseKeys.IntegerOf(kty) else f.kty,
      if crv.Some? then CoseKeys.IntegerOf(crv) else f.crv,
      if x.Some? then CoseKeys.BytesOf(x) else f.x,
      if y.Some? then CoseKeys.BytesOf(y) else f.y)
  }

  lemma FieldsAfterCons(e: Entry, es: seq<Entry>, f: SwiftExtract.KeyFields)
    requires EntryReadable(e)
    ensures FieldsAfter([e] + es, f) == FieldsAfter(es, UpdateFields(f, e))
  {
    hide CoseKeys.AsI64, CoseKeys.LastParameter;
    LastParameterCons(e, es, CoseKeys.KTY);
    LastParameterCons(e, es, CoseKeys.CRV);
    LastParameterCons(e, es, CoseKeys.X);
    LastParameterCons(e, es, CoseKeys.Y);
  }

  lemma {:induction false} KeyAgrees(s: bytes, pos: nat, n: nat, f: SwiftExtract.KeyFields)
    requires pos <= |s| <= INT_MAX && Items(s[pos..], 2 * n).Some?
    ensures var es := Paired(Items(s[pos..], 2 * n).value.0);
            if KeyReadable(es) then SwiftExtract.KeyEntries(s, pos, n, f) == Ok(FieldsAfter(es, f))
            else !SwiftExtract.KeyEntries(s, pos, n, f).Ok?
    decreases n
  {
    hide Item, Items, SwiftExtract.KeyEntry, Paired, CoseKeys.LastParameter, EntryReadable, UpdateFields;
    if n == 0 {
      NoEntries(s[pos..]);
    } else {
      FirstEntry(s, pos, n);
      EntryAgrees(s, pos, n, f);
      var es := Paired(Items(s[pos..], 2 * n).value.0);
      var q := Item(Item(s[pos..]).value.1).value.1;
      var tail := Paired(Items(q, 2 * (n - 1)).value.0);
      assert es[0] in es && forall e | e in tail :: e in es;
      if EntryReadable(es[0]) {
        FieldsAfterCons(es[0], tail, f);
        KeyAgrees(s, EndOf(s, q), n - 1, UpdateFields(f, es[0]));
        assert KeyReadable(es) <==> KeyReadable(tail);
      }
    }
  }

  // The two extractors.

  /** The verifier's pipeline: attestation object, authenticator data, key. */
  function VerifierKey(s: bytes): Option<bytes> {
    var stmt :- AttestationObjects.ParseAttestationObject(s);
    var auth :- AuthData.Parse(stmt.authData);
    CoseKeys.ParseKey(auth.credentialPublicKey)
  }

  /** Entries of the map at the front of `s`, if there is one. */
  function EntriesOf(s: bytes): seq<Entry> {
    match Item(s)
    case Some((Map(es), _)) => es
    case _ => []
  }

  /** The cursor can read the entries it does not skip: `authData` at the top, all of the key map. */
  predicate CursorReadable(s: bytes, cose: bytes) {
    AuthDataReadable(EntriesOf(s)) && KeyReadable(EntriesOf(cose))
  }

  /** Key octets within authenticator data that the verifier parses. */
  function CoseOctets(s: bytes): Option<bytes> {
    var stmt :- AttestationObjects.ParseAttestationObject(s);
    var auth :- AuthData.Parse(stmt.authData);
    Some(auth.credentialPublicKey)
  }

  lemma KeyOfCose(cose: bytes, pk: bytes)
    requires |cose| <= INT_MAX && CoseKeys.ParseKey(cose) == Some(pk)
    ensures if KeyReadable(EntriesOf(cose)) then SwiftExtract.KeyOf(cose) == Ok(pk) else !SwiftExtract.KeyOf(cose).Ok?
  {
    hide Item, Items, Paired, MapHeaderAt, SwiftExtract.KeyEntries, CoseKeys.LastParameter, KeyReadable;
    MapHeaderOfItem(cose);
    var es := Item(cose).value.0.entries;
    var p :| 0 <= p <= |cose| && MapHeaderAt(cose, 0) == Ok((|es|, p))
      && Items(cose[p..], 2 * |es|).Some? && Paired(Items(cose[p..], 2 * |es|).value.0) == es;
    KeyAgrees(cose, p, |es|, SwiftExtract.NO_FIELDS);
  }

  /** A byte string inside a map is no longer than the map. */
  lemma {:induction false} EntrySize(s: bytes, n: nat, e: Entry)
    requires n % 2 == 0 && Items(s, n).Some? && e in Paired(Items(s, n).value.0)
    requires e.val.ByteString?
    ensures |e.val.b| <= |s|
    decreases n
  {
    hide Head;
    TwoItems(s, n);
    var s1 := Item(s).value.1;
    var s2 := Item(s1).value.1;
    var items := Items(s, n).value.0;
    assert items[2..] == Items(s2, n - 2).value.0;
    if e == Entry(items[0], items[1]) {
    } else {
      EntrySize(s2, n - 2, e);
    }
  }

  lemma AuthDataOfObject(s: bytes)
    requires |s| <= INT_MAX && AttestationObjects.ParseAttestationObject(s).Some?
    ensures var ad := AttestationObjects.ParseAttestationObject(s).value.authData;
            if AuthDataReadable(EntriesOf(s)) then SwiftExtract.ExtractKey(s) == SwiftExtract.KeyOfAuthData(ad)
            else !SwiftExtract.ExtractKey(s).Ok?
    ensures |AttestationObjects.ParseAttestationObject(s).value.authData| <= |s|
  {
    hide Item, Items, Paired, MapHeaderAt, SwiftExtract.TopEntries, SwiftExtract.KeyOfAuthData,
      AttestationObjects.LastValue, AttestationObjects.ReadStatement, AuthDataReadable;
    MapHeaderOfItem(s);
    var es := Item(s).value.0.entries;
    var p :| 0 <= p <= |s| && MapHeaderAt(s, 0) == Ok((|es|, p))
      && Items(s[p..], 2 * |es|).Some? && Paired(Items(s[p..], 2 * |es|).value.0) == es;
    TopAgrees(s, p, |es|, None);
    assert SwiftExtract.AUTH_DATA == AttestationObjects.AUTH_DATA;
    LastValueIn(es, AttestationObjects.AUTH_DATA);
    EntrySize(s[p..], 2 * |es|, Entry(TextString(AttestationObjects.AUTH_DATA),
      AttestationObjects.LastValue(es, AttestationObjects.AUTH_DATA).value));
  }

  lemma BigEndianOctet(b: byte)
    ensures BigEndian([b]) == b
  {
    assert [] + [b] == [b];
    BigEndianSnoc([], b);
  }

  /** The cursor finds the key octets where the parser of authenticator data does. */
  lemma KeyOfParsed(ad: bytes)
    requires AuthData.Parse(ad).Some?
    ensures SwiftExtract.KeyOfAuthData(ad) == SwiftExtract.KeyOf(AuthData.Parse(ad).value.credentialPublicKey)
    ensures |AuthData.Parse(ad).value.credentialPublicKey| <= |ad|
  {
    hide SwiftExtract.KeyOf, BigEndian;
    assert ad[53..55] == [ad[53]] + [ad[54]];
    BigEndianOctet(ad[53]);
    BigEndianSnoc([ad[53]], ad[54]);
  }

  /**
   Whenever the verifier accepts an attestation object, the iOS cursor returns the identical
   65-octet key if every `authData` value is a byte string and every key-map entry has an integer key
   and, for the five parameters, a value of the expected type; otherwise it returns nothing.
   */
  lemma ExtractorsAgree(s: bytes, pk: bytes)
    requires |s| <= INT_MAX
    requires VerifierKey(s) == Some(pk)
    ensures if CursorReadable(s, CoseOctets(s).value) then SwiftExtract.ExtractKey(s) == Ok(pk)
            else !SwiftExtract.ExtractKey(s).Ok?
  {
    hide SwiftExtract.ExtractKey, CoseKeys.ParseKey, KeyReadable, AuthDataReadable,
      AttestationObjects.ParseAttestationObject, AuthData.Parse, SwiftExtract.KeyOfAuthData, EntriesOf;
    AuthDataOfObject(s);
    var ad := AttestationObjects.ParseAttestationObject(s).value.authData;
    var cose := AuthData.Parse(ad).value.credentialPublicKey;
    KeyOfParsed(ad);
    KeyOfCose(cose, pk);
  }

  /**
   What the cursor takes for a key in a whole map: every entry readable, the last 1 and -1 saying EC2 and
   P-256, the last -2 and -3 byte strings of 32 octets. What entry 3 says it does not look at.
   */
  lemma CursorKeyExactly(cose: bytes, pk: bytes)
    requires |cose| <= INT_MAX && Item(cose).Some? && Item(cose).value.0.Map?
    ensures var es := Item(cose).value.0.entries;
            SwiftExtract.KeyOf(cose) == Ok(pk) <==>
              && (forall i | 0 <= i < |es| :: EntryReadable(es[i]))
              && CoseKeys.Last(es, 1, UInt(2)) && CoseKeys.Last(es, -1, UInt(1))
              && exists x: bytes, y: bytes ::
                   && |x| == 32 && |y| == 32 && pk == [4] + x + y
                   && CoseKeys.Last(es, -2, ByteString(x)) && CoseKeys.Last(es, -3, ByteString(y))
  {
    hide Item, Items, Paired, MapHeaderAt, SwiftExtract.KeyEntries, CoseKeys.LastParameter, CoseKeys.Last,
      EntryReadable;
    MapHeaderOfItem(cose);
    var es := Item(cose).value.0.entries;
    var p :| 0 <= p <= |cose| && MapHeaderAt(cose, 0) == Ok((|es|, p))
      && Items(cose[p..], 2 * |es|).Some? && Paired(Items(cose[p..], 2 * |es|).value.0) == es;
    KeyAgrees(cose, p, |es|, SwiftExtract.NO_FIELDS);
    forall i | 0 <= i < |es| ensures es[i] in es {
    }
    forall k: int, v: Value | -1000 < k < 1000
      ensures CoseKeys.LastParameter(es, k) == Some(v) <==> CoseKeys.Last(es, k, v)
    {
      CoseKeys.LastParameterExactly(es, k, v);
    }
    CoseKeys.IntegerIs(CoseKeys.LastParameter(es, 1), 2);
    CoseKeys.IntegerIs(CoseKeys.LastParameter(es, -1), 1);
    assert CoseKeys.Last(es, 1, UInt(2)) <==> CoseKeys.LastParameter(es, 1) == Some(UInt(2));
    assert CoseKeys.Last(es, -1, UInt(1)) <==> CoseKeys.LastParameter(es, -1) == Some(UInt(1));
    if SwiftExtract.KeyOf(cose) == Ok(pk) {
      var x := CoseKeys.BytesOf(CoseKeys.LastParameter(es, -2)).value;
      var y := CoseKeys.BytesOf(CoseKeys.LastParameter(es, -3)).value;
      assert CoseKeys.Last(es, -2, ByteString(x)) && CoseKeys.Last(es, -3, ByteString(y));
    }
  }

  /** No two entries share a key. */
  predicate UniqueKeys(es: seq<Entry>) {
    forall i, j | 0 <= i < j < |es| :: es[i].key != es[j].key
  }

  lemma {:induction false} UniqueValue(es: seq<Entry>, i: nat, key: bytes)
    requires UniqueKeys(es) && i < |es| && es[i].key == TextString(key)
    ensures AttestationObjects.LastValue(es, key) == Some(es[i].val)
  {
    if i == |es| - 1 {
    } else {
      assert es[|es| - 1].key != es[i].key;
      UniqueValue(es[..|es| - 1], i, key);
    }
  }

  lemma {:induction false} UniqueParameter(es: seq<Entry>, i: nat, key: int)
    requires UniqueKeys(es) && i < |es| && CoseKeys.AsI64(es[i].key) == Some(key)
    ensures CoseKeys.LastParameter(es, key) == Some(es[i].val)
  {
    if i == |es| - 1 {
    } else {
      assert es[|es| - 1].key != es[i].key;
      UniqueParameter(es[..|es| - 1], i, key);
    }
  }

  lemma UniqueKeysReadable(cose: bytes)
    requires CoseKeys.ParseKey(cose).Some?
    requires UniqueKeys(EntriesOf(cose))
    requires forall e | e in EntriesOf(cose) :: CoseKeys.AsI64(e.key).Some?
    ensures KeyReadable(EntriesOf(cose))
  {
    hide Item, CoseKeys.AsI64;
    var es := EntriesOf(cose);
    forall i: nat | i < |es| ensures EntryReadable(es[i]) {
      UniqueParameter(es, i, CoseKeys.AsI64(es[i].key).value);
    }
  }

  /** On maps without duplicate keys whose key parameters are named by integers, the two agree. */
  lemma ExtractorsAgreeOnUniqueKeys(s: bytes, pk: bytes)
    requires |s| <= INT_MAX
    requires VerifierKey(s) == Some(pk)
    requires UniqueKeys(EntriesOf(s)) && UniqueKeys(EntriesOf(CoseOctets(s).value))
    requires forall e | e in EntriesOf(CoseOctets(s).value) :: CoseKeys.AsI64(e.key).Some?
    ensures SwiftExtract.ExtractKey(s) == Ok(pk)
  {
    hide SwiftExtract.ExtractKey, CoseKeys.ParseKey, KeyReadable, Item, AuthData.Parse,
      AttestationObjects.ReadStatement;
    UniqueKeysReadable(CoseOctets(s).value);
    var es := EntriesOf(s);
    forall i: nat | i < |es| && es[i].key == TextString(SwiftExtract.AUTH_DATA) ensures es[i].val.ByteString? {
      UniqueValue(es, i, SwiftExtract.AUTH_DATA);
      assert SwiftExtract.AUTH_DATA == AttestationObjects.AUTH_DATA;
    }
    ExtractorsAgree(s, pk);
  }

  /** The smallest attestation object around a key map with these entries. */
  function ObjectWith(es: seq<Entry>): Value {
    var authData := AuthData.Layout(AuthData.AuthenticatorData(Zeros(32), 64, 0, Zeros(16), [], Encode(Map(es))));
    Map([Entry(TextString(AttestationObjects.FMT), TextString([])),
         Entry(TextString(AttestationObjects.AUTH_DATA), ByteString(authData)),
         Entry(TextString(AttestationObjects.ATT_STMT),
               Map([Entry(TextString(AttestationObjects.X5C), Array([]))]))])
  }

  lemma LastOfThree(a: Entry, b: Entry, c: Entry, key: bytes)
    ensures AttestationObjects.LastValue([a, b, c], key)
         == if c.key == TextString(key) then Some(c.val)
            else if b.key == TextString(key) then Some(b.val)
            else if a.key == TextString(key) then Some(a.val)
            else None
    ensures AttestationObjects.LastValue([c], key) == if c.key == TextString(key) then Some(c.val) else None
  {
    assert [a, b, c] == [a, b] + [c] && [a, b] == [a] + [b] && [a] == [] + [a] && [c] == [] + [c];
    AttestationObjects.LastValueSnoc([a, b], c, key);
    AttestationObjects.LastValueSnoc([a], b, key);
    AttestationObjects.LastValueSnoc([], a, key);
    AttestationObjects.LastValueSnoc([], c, key);
  }

  lemma ObjectStatement(es: seq<Entry>)
    ensures AttestationObjects.ReadObject(ObjectWith(es)).Some?
    ensures AttestationObjects.ReadObject(ObjectWith(es)).value.authData == ObjectWith(es).entries[1].val.b
  {
    hide Encode, AuthData.Layout, AttestationObjects.LastValue;
    var top := ObjectWith(es).entries;
    var x5c := Entry(TextString(AttestationObjects.X5C), Array([]));
    assert |AttestationObjects.FMT| == 3 && |AttestationObjects.AUTH_DATA| == 8 && |AttestationObjects.ATT_STMT| == 7;
    LastOfThree(top[0], top[1], top[2], AttestationObjects.FMT);
    LastOfThree(top[0], top[1], top[2], AttestationObjects.AUTH_DATA);
    LastOfThree(top[0], top[1], top[2], AttestationObjects.ATT_STMT);
    LastOfThree(x5c, x5c, x5c, AttestationObjects.X5C);
  }

  lemma ObjectWellFormed(es: seq<Entry>)
    requires |Encode(Map(es))| < 0x1_0000_0000
    ensures WellFormed(ObjectWith(es))
  {
    hide Encode;
    assert WellFormed(Array([]));
    assert WellFormed(Map([Entry(TextString(AttestationObjects.X5C), Array([]))]));
  }

  /** The verifier reads its key map, and nothing else, as the key. */
  lemma ObjectKey(es: seq<Entry>)
    requires WellFormed(Map(es)) && |Encode(Map(es))| < 0x1_0000_0000
    ensures var s := Encode(ObjectWith(es));
            && VerifierKey(s) == CoseKeys.ReadKey(es)
            && CoseOctets(s) == Some(Encode(Map(es))) && EntriesOf(Encode(Map(es))) == es
  {
    hide Encode, Item, AttestationObjects.ReadObject, AuthData.Parse, AuthData.Layout, CoseKeys.ReadKey, WellFormed;
    var v := ObjectWith(es);
    var a := AuthData.AuthenticatorData(Zeros(32), 64, 0, Zeros(16), [], Encode(Map(es)));
    ObjectWellFormed(es);
    ItemRoundTrip(v, []);
    ItemRoundTrip(Map(es), []);
    assert Encode(v) + [] == Encode(v) && Encode(Map(es)) + [] == Encode(Map(es));
    ObjectStatement(es);
    AuthData.ParseLayout(a);
  }

  /** A P-256 key map, and one text key that no parameter has. */
  const TEXT_KEY_ENTRIES: seq<Entry> :=
    [Entry(UInt(1), UInt(2)), Entry(UInt(3), NInt(6)), Entry(NInt(0), UInt(1)),
     Entry(NInt(1), ByteString(Zeros(32))), Entry(NInt(2), ByteString(Zeros(32))),
     Entry(TextString([]), UInt(0))]

  lemma HeadLength(major: nat, arg: nat)
    requires major < 8
    ensures |EncodeHead(major, arg)| <= 9
  {
  }

  /** The size of an entry whose key is an integer or short text and whose value is an integer or byte string. */
  lemma SmallEntry(e: Entry)
    requires e.key.UInt? || e.key.NInt? || e.key == TextString([])
    requires e.val.UInt? || (e.val.ByteString? && |e.val.b| <= 32) || e.val.NInt?
    ensures |EncodeEntry(e)| <= 50
  {
    hide EncodeHead;
    HeadLength(0, if e.key.UInt? then e.key.n else 0);
    HeadLength(1, if e.key.NInt? then e.key.n else 0);
    HeadLength(3, 0);
    HeadLength(0, if e.val.UInt? then e.val.n else 0);
    HeadLength(1, if e.val.NInt? then e.val.n else 0);
    HeadLength(2, if e.val.ByteString? then |e.val.b| else 0);
  }

  lemma {:induction false} SmallEntries(es: seq<Entry>)
    requires forall e | e in es ::
               && (e.key.UInt? || e.key.NInt? || e.key == TextString([]))
               && (e.val.UInt? || (e.val.ByteString? && |e.val.b| <= 32) || e.val.NInt?)
    ensures |EncodeEntries(es)| <= 50 * |es|
  {
    hide EncodeEntry;
    if es == [] {
    } else {
      SmallEntry(es[0]);
      SmallEntries(es[1..]);
    }
  }

  lemma EntriesOfThree(a: Entry, b: Entry, c: Entry)
    ensures EncodeEntries([a, b, c]) == EncodeEntry(a) + (EncodeEntry(b) + EncodeEntry(c))
    ensures EncodeEntries([c]) == EncodeEntry(c)
  {
    hide EncodeEntry;
    assert [a, b, c][1..] == [b, c] && [b, c][1..] == [c] && [c][1..] == [];
    assert EncodeEntries([c]) == EncodeEntry(c) + [];
    assert EncodeEntries([b, c]) == EncodeEntry(b) + EncodeEntry(c);
  }

  lemma StringLength(b: bytes)
    ensures |Encode(ByteString(b))| <= 9 + |b| && |Encode(TextString(b))| <= 9 + |b|
  {
    hide EncodeHead;
    HeadLength(2, |b|);
    HeadLength(3, |b|);
  }

  lemma EmptyArrayLength()
    ensures |Encode(Array([]))| <= 9
  {
    hide EncodeHead;
    HeadLength(4, 0);
    assert EncodeItems([]) == [];
  }

  lemma EncodedMap(es: seq<Entry>)
    ensures Encode(Map(es)) == EncodeHead(5, |es|) + EncodeEntries(es)
  {
  }

  lemma ObjectLength(es: seq<Entry>)
    ensures |Encode(ObjectWith(es))| <= |Encode(Map(es))| + 200
  {
    hide EncodeHead, Encode;
    var top := ObjectWith(es).entries;
    var x5c := Entry(TextString(AttestationObjects.X5C), Array([]));
    StringLength(AttestationObjects.FMT);
    StringLength([]);
    StringLength(AttestationObjects.AUTH_DATA);
    StringLength(top[1].val.b);
    StringLength(AttestationObjects.ATT_STMT);
    StringLength(AttestationObjects.X5C);
    EmptyArrayLength();
    EncodedMap(top);
    EncodedMap([x5c]);
    HeadLength(5, 3);
    HeadLength(5, 1);
    EntriesOfThree(top[0], top[1], top[2]);
    EntriesOfThree(x5c, x5c, x5c);
    assert |AttestationObjects.FMT| == 3 && |AttestationObjects.AUTH_DATA| == 8;
    assert |AttestationObjects.ATT_STMT| == 7 && |AttestationObjects.X5C| == 3;
    assert |Encode(Map([x5c]))| <= 9 + 12 + 9;
    assert |EncodeEntry(top[0])| <= 12 + 9;
    assert |EncodeEntry(top[1])| <= 17 + 9 + 55 + |Encode(Map(es))|;
    assert |EncodeEntry(top[2])| <= 16 + 30;
  }

  lemma TextKeysUnique()
    ensures WellFormed(Map(TEXT_KEY_ENTRIES)) && UniqueKeys(TEXT_KEY_ENTRIES)
  {
  }

  lemma TextKeyParameters()
    ensures CoseKeys.ReadKey(TEXT_KEY_ENTRIES) == Some([4] + Zeros(32) + Zeros(32))
  {
    hide CoseKeys.LastParameter;
    var es := TEXT_KEY_ENTRIES;
    TextKeysUnique();
    UniqueParameter(es, 0, CoseKeys.KTY);
    UniqueParameter(es, 1, CoseKeys.ALG);
    UniqueParameter(es, 2, CoseKeys.CRV);
    UniqueParameter(es, 3, CoseKeys.X);
    UniqueParameter(es, 4, CoseKeys.Y);
  }

  /** Around every key map of which the verifier takes a key, the cursor decides by its entries. */
  lemma ObjectAgrees(es: seq<Entry>, pk: bytes)
    requires WellFormed(Map(es)) && |Encode(Map(es))| < 0x1_0000_0000 && CoseKeys.ReadKey(es) == Some(pk)
    ensures var s := Encode(ObjectWith(es));
            VerifierKey(s) == Some(pk) && (SwiftExtract.ExtractKey(s).Ok? ==> KeyReadable(es))
  {
    hide Encode, ObjectWith, VerifierKey, CoseOctets, EntriesOf, SwiftExtract.ExtractKey, CoseKeys.ReadKey, WellFormed,
      KeyReadable, AuthDataReadable;
    ObjectLength(es);
    ObjectKey(es);
    ExtractorsAgree(Encode(ObjectWith(es)), pk);
  }

  lemma TextKeysShort()
    ensures |Encode(Map(TEXT_KEY_ENTRIES))| < 0x1_0000_0000
  {
    hide Encode, EncodeEntries, EncodeHead;
    HeadLength(5, |TEXT_KEY_ENTRIES|);
    SmallEntries(TEXT_KEY_ENTRIES);
    EncodedMap(TEXT_KEY_ENTRIES);
  }

  lemma TextKeysUnreadable()
    ensures !KeyReadable(TEXT_KEY_ENTRIES)
  {
    assert TEXT_KEY_ENTRIES[5] in TEXT_KEY_ENTRIES && !EntryReadable(TEXT_KEY_ENTRIES[5]);
  }

  /** An object that the verifier takes a key from and the iOS cursor refuses. */
  lemma TextKeyRefused()
    ensures var s := Encode(ObjectWith(TEXT_KEY_ENTRIES));
            VerifierKey(s) == Some([4] + Zeros(32) + Zeros(32)) && !SwiftExtract.ExtractKey(s).Ok?
  {
    hide Encode, ObjectWith, VerifierKey, SwiftExtract.ExtractKey, CoseKeys.ReadKey, WellFormed, KeyReadable,
      UniqueKeys;
    TextKeysShort();
    TextKeysUnique();
    TextKeyParameters();
    ObjectAgrees(TEXT_KEY_ENTRIES, [4] + Zeros(32) + Zeros(32));
    TextKeysUnreadable();
  }
}
