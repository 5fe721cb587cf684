/**
 CBOR data items of major types 0 to 5 with definite lengths (section 3 of RFC 8949), decoded to a
 tree as `ciborium` does: arguments need not be in shortest form and map entries keep their order.
 */
module Cbor {
  import opened Bytes

  const ARGUMENT_LIMIT: nat := 0x1_0000_0000_0000_0000

  datatype Value =
    | UInt(n: nat)
    | NInt(n: nat)  // the integer -1 - n
    | ByteString(b: bytes)
    | TextString(t: bytes)
    | Array(items: seq<Value>)
    | Map(entries: seq<Entry>)

  datatype Entry = Entry(key: Value, val: Value)

  /** How many octets follow an initial octet whose low five bits are `info`. */
  function ArgumentOctets(info: nat): nat
    requires 24 <= info <= 27
  {
    if info == 24 then 1 else if info == 25 then 2 else if info == 26 then 4 else 8
  }

  /** Major type, argument, and how many octets they take. */
  function Head(s: bytes): (r: Option<(nat, nat, nat)>)
    ensures r.Some? ==> 0 < r.value.2 <= |s|
  {
    if s == [] then None
    else
      var info := s[0] % 32;
      if info < 24 then Some((s[0] / 32, info, 1))
      else if info > 27 then None
      else
        var n := ArgumentOctets(info);
        if 1 + n > |s| then None else Some((s[0] / 32, BigEndian(s[1..1 + n]), 1 + n))
  }

  /** Alternating keys and values as entries. */
  function Paired(items: seq<Value>): (es: seq<Entry>)
    requires |items| % 2 == 0
    ensures 2 * |es| == |items|
  {
    if items == [] then [] else [Entry(items[0], items[1])] + Paired(items[2..])
  }

  /** The first data item of `s`, and what follows it. */
  function Item(s: bytes): (r: Option<(Value, bytes)>)
    ensures r.Some? ==> |r.value.1| < |s|
    decreases |s|, 0, 0
  {
    var (major, arg, used) :- Head(s);
    var rest := s[used..];
    match major
    case 0 => Some((UInt(arg), rest))
    case 1 => Some((NInt(arg), rest))
    case 2 => if arg > |rest| then None else Some((ByteString(rest[..arg]), rest[arg..]))
    case 3 => if arg > |rest| then None else Some((TextString(rest[..arg]), rest[arg..]))
    case 4 =>
      var (items, tail) :- Items(rest, arg);
      Some((Array(items), tail))
    case 5 =>
      var (items, tail) :- Items(rest, 2 * arg);
      Some((Map(Paired(items)), tail))
    case _ => None
  }

  /** The first `n` data items of `s`, and what follows them. */
  function Items(s: bytes, n: nat): (r: Option<(seq<Value>, bytes)>)
    ensures r.Some? ==> |r.value.0| == n && |r.value.1| <= |s|
    decreases |s|, 1, n
  {
    if n == 0 then Some(([], s))
    else
      var (v, rest) :- Item(s);
      var (vs, tail) :- Items(rest, n - 1);
      Some(([v] + vs, tail))
  }

  // Encoding with shortest arguments, and inversion.

  predicate WellFormed(v: Value) {
    match v
    case UInt(n) => n < ARGUMENT_LIMIT
    case NInt(n) => n < ARGUMENT_LIMIT
    case ByteString(b) => |b| < ARGUMENT_LIMIT
    case TextString(t) => |t| < ARGUMENT_LIMIT
    case Array(items) => |items| < ARGUMENT_LIMIT && forall i | 0 <= i < |items| :: WellFormed(items[i])
    case Map(entries) =>
      |entries| < ARGUMENT_LIMIT
      && forall i | 0 <= i < |entries| :: WellFormed(entries[i].key) && WellFormed(entries[i].val)
  }

  function EncodeHead(major: nat, arg: nat): (s: bytes)
    requires major < 8
    ensures |s| > 0
  {
    if arg < 24 then [major * 32 + arg]
    else if arg < 0x100 then [major * 32 + 24] + ToBigEndian(arg, 1)
    else if arg < 0x1_0000 then [major * 32 + 25] + ToBigEndian(arg, 2)
    else if arg < 0x1_0000_0000 then [major * 32 + 26] + ToBigEndian(arg, 4)
    else [major * 32 + 27] + ToBigEndian(arg, 8)
  }

  function Encode(v: Value): (s: bytes)
    ensures |s| > 0
    decreases v, 0
  {
    match v
    case UInt(n) => EncodeHead(0, n)
    case NInt(n) => EncodeHead(1, n)
    case ByteString(b) => EncodeHead(2, |b|) + b
    case TextString(t) => EncodeHead(3, |t|) + t
    case Array(items) => EncodeHead(4, |items|) + EncodeItems(items)
    case Map(entries) => EncodeHead(5, |entries|) + EncodeEntries(entries)
  }

  function EncodeItems(items: seq<Value>): bytes
    decreases items, 1
  {
    if items == [] then [] else Encode(items[0]) + EncodeItems(items[1..])
  }

  function EncodeEntries(entries: seq<Entry>): bytes
    decreases entries, 1
  {
    if entries == [] then [] else EncodeEntry(entries[0]) + EncodeEntries(entries[1..])
  }

  function EncodeEntry(e: Entry): bytes
    decreases e, 0
  {
    Encode(e.key) + Encode(e.val)
  }

  lemma InitialOctet(major: nat, info: nat, b: byte)
    requires info < 32 && b == major * 32 + info
    ensures b / 32 == major && b % 32 == info
  {
  }

  lemma ShortHead(major: nat, arg: nat, s: bytes)
    requires major < 8 && arg < 24 && s != [] && s[0] == major * 32 + arg
    ensures Head(s) == Some((major, arg, 1))
  {
    InitialOctet(major, arg, s[0]);
  }

  lemma LongHead(major: nat, info: nat, arg: nat, rest: bytes)
    requires major < 8 && 24 <= info <= 27 && arg < Pow256(ArgumentOctets(info))
    ensures var n := ArgumentOctets(info);
            Head([major * 32 + info] + ToBigEndian(arg, n) + rest) == Some((major, arg, 1 + n))
  {
    hide BigEndian, ToBigEndian;
    var n := ArgumentOctets(info);
    var s := [major * 32 + info] + ToBigEndian(arg, n) + rest;
    InitialOctet(major, info, s[0]);
    ToBigEndianValue(arg, n);
    assert s[1..1 + n] == ToBigEndian(arg, n);
  }

  lemma HeadRoundTrip(major: nat, arg: nat, rest: bytes)
    requires major < 8 && arg < ARGUMENT_LIMIT
    ensures Head(EncodeHead(major, arg) + rest) == Some((major, arg, |EncodeHead(major, arg)|))
  {
    hide Head;
    Pow256Values();
    if arg < 24 {
      ShortHead(major, arg, EncodeHead(major, arg) + rest);
    } else if arg < 0x100 {
      LongHead(major, 24, arg, rest);
    } else if arg < 0x1_0000 {
      LongHead(major, 25, arg, rest);
    } else if arg < 0x1_0000_0000 {
      LongHead(major, 26, arg, rest);
    } else {
      LongHead(major, 27, arg, rest);
    }
  }

  /** Every well-formed value, nested to any depth, is read back from its encoding. */
  lemma {:induction false} ItemRoundTrip(v: Value, rest: bytes)
    requires WellFormed(v)
    ensures Item(Encode(v) + rest) == Some((v, rest))
    decreases v, 0
  {
    hide Head, EncodeHead;
    match v
    case UInt(n) => HeadRoundTrip(0, n, rest);
    case NInt(n) => HeadRoundTrip(1, n, rest);
    case ByteString(b) =>
      HeadRoundTrip(2, |b|, b + rest);
      assert Encode(v) + rest == EncodeHead(2, |b|) + (b + rest);
    case TextString(t) =>
      HeadRoundTrip(3, |t|, t + rest);
      assert Encode(v) + rest == EncodeHead(3, |t|) + (t + rest);
    case Array(items) =>
      HeadRoundTrip(4, |items|, EncodeItems(items) + rest);
      assert Encode(v) + rest == EncodeHead(4, |items|) + (EncodeItems(items) + rest);
      ItemsRoundTrip(items, rest);
    case Map(entries) =>
      HeadRoundTrip(5, |entries|, EncodeEntries(entries) + rest);
      assert Encode(v) + rest == EncodeHead(5, |entries|) + (EncodeEntries(entries) + rest);
      EntriesRoundTrip(entries, rest);
  }

  lemma {:induction false} ItemsRoundTrip(items: seq<Value>, rest: bytes)
    requires forall i | 0 <= i < |items| :: WellFormed(items[i])
    ensures Items(EncodeItems(items) + rest, |items|) == Some((items, rest))
    decreases items, 1
  {
    hide Item, Encode;
    if items == [] {
      assert EncodeItems(items) + rest == rest;
    } else {
      var tail := EncodeItems(items[1..]) + rest;
      assert EncodeItems(items) + rest == Encode(items[0]) + tail;
      ItemRoundTrip(items[0], tail);
      ItemsRoundTrip(items[1..], rest);
      assert items == [items[0]] + items[1..];
    }
  }

  /** A nonempty even run of items starts with a key and a value. */
  lemma TwoItems(s: bytes, n: nat)
    requires n >= 2
    ensures Items(s, n) == match Item(s) {
              case None => None
              case Some((k, s1)) => match Item(s1) {
                case None => None
                case Some((v, s2)) => match Items(s2, n - 2) {
                  case None => None
                  case Some((vs, tail)) => Some(([k, v] + vs, tail))
                }
              }
            }
  {
    hide Item;
    var first := Item(s);
    if first.Some? {
      var s1 := first.value.1;
      var second := Item(s1);
      if second.Some? {
        var rest := Items(second.value.1, n - 2);
        if rest.Some? {
          assert [first.value.0] + ([second.value.0] + rest.value.0) == [first.value.0, second.value.0] + rest.value.0;
        }
        assert Items(s1, n - 1) == match rest case None => None case Some((vs, t)) => Some(([second.value.0] + vs, t));
      } else {
        assert Items(s1, n - 1) == None;
      }
    }
  }

  lemma {:induction false} EntriesRoundTrip(entries: seq<Entry>, rest: bytes)
    requires forall i | 0 <= i < |entries| :: WellFormed(entries[i].key) && WellFormed(entries[i].val)
    ensures var r := Items(EncodeEntries(entries) + rest, 2 * |entries|);
            r.Some? && Paired(r.value.0) == entries && r.value.1 == rest
    decreases entries, 1
  {
    hide Item, Encode;
    if entries == [] {
      assert EncodeEntries(entries) + rest == rest;
    } else {
      var tail := EncodeEntries(entries[1..]) + rest;
      assert EncodeEntries(entries) + rest == EncodeEntry(entries[0]) + tail;
      EntryRoundTrip(entries[0], tail);
      EntriesRoundTrip(entries[1..], rest);
      var n := 2 * |entries|;
      var items := Items(tail, n - 2).value.0;
      var Entry(k, v) := entries[0];
      TwoItems(EncodeEntry(entries[0]) + tail, n);
      assert ([k, v] + items)[2..] == items;
      assert entries == [Entry(k, v)] + entries[1..];
    }
  }

  lemma {:induction false} EntryRoundTrip(e: Entry, rest: bytes)
    requires WellFormed(e.key) && WellFormed(e.val)
    ensures Item(EncodeEntry(e) + rest) == Some((e.key, Encode(e.val) + rest))
    ensures Item(Encode(e.val) + rest) == Some((e.val, rest))
    decreases e, 0
  {
    hide Item, Encode;
    assert EncodeEntry(e) + rest == Encode(e.key) + (Encode(e.val) + rest);
    ItemRoundTrip(e.key, Encode(e.val) + rest);
    ItemRoundTrip(e.val, rest);
  }
}
