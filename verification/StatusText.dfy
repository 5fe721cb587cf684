/**
 The text of Google's attestation status list: its grammar as a concrete syntax tree, and the
 parsing functions that the status-list cursor computes. Strings are kept raw, escapes included.
 */
module StatusText {
  import opened Bytes

  const QUOTE: byte := 34
  const COMMA: byte := 44
  const COLON: byte := 58
  const BACKSLASH: byte := 92
  const OPEN: byte := 123
  const CLOSE: byte := 125

  predicate IsWs(b: byte) {
    b == 32 || b == 10 || b == 13 || b == 9
  }

  predicate AllWs(w: bytes) {
    forall i | 0 <= i < |w| :: IsWs(w[i])
  }

  predicate StartsInk(s: bytes) {
    s == [] || !IsWs(s[0])
  }

  /** Number of white-space octets at the front. */
  function WsCount(s: bytes): (n: nat)
    ensures n <= |s|
  {
    if StartsInk(s) then 0 else 1 + WsCount(s[1..])
  }

  /** White space at the front, and what follows it. */
  function Ws(s: bytes): (r: (bytes, bytes))
    ensures r.0 + r.1 == s && |r.1| <= |s|
  {
    (s[..WsCount(s)], s[WsCount(s)..])
  }

  function AfterWs(s: bytes): bytes {
    Ws(s).1
  }

  /** What follows one expected octet. */
  function Token(c: byte, s: bytes): (r: Option<bytes>)
    ensures r.Some? ==> s == [c] + r.value
  {
    if s != [] && s[0] == c then Some(s[1..]) else None
  }

  /** Octets before the closing quote; a backslash and the octet after it are passed over together. */
  function BodyCount(s: bytes): (n: Option<nat>)
    ensures n.Some? ==> n.value < |s| && s[n.value] == QUOTE
  {
    if s == [] then None
    else if s[0] == BACKSLASH then
      if |s| < 2 then None
      else
        var n :- BodyCount(s[2..]);
        Some(n + 2)
    else if s[0] == QUOTE then Some(0)
    else
      var n :- BodyCount(s[1..]);
      Some(n + 1)
  }

  /** Well-formed string bodies: no bare quote, and no backslash at the very end. */
  predicate IsBody(b: bytes) {
    b == [] || if b[0] == BACKSLASH then |b| >= 2 && IsBody(b[2..]) else b[0] != QUOTE && IsBody(b[1..])
  }

  function Quoted(b: bytes): bytes {
    [QUOTE] + b + [QUOTE]
  }

  function String(s: bytes): (r: Option<(bytes, bytes)>)
    ensures r.Some? ==> |r.value.1| < |s|
  {
    var body :- Token(QUOTE, s);
    var n :- BodyCount(body);
    Some((body[..n], body[n + 1..]))
  }

  // Syntax trees: every blank between tokens is recorded.

  /** `w1 "key" w2 : w3 "val" w4` */
  datatype Member = Member(w1: bytes, key: bytes, w2: bytes, w3: bytes, val: bytes, w4: bytes)

  /** `{ blank }`, or members separated by commas. */
  datatype Object = Object(blank: bytes, members: seq<Member>)

  /** `w1 "serial" w2 : w3 object w4` */
  datatype Entry = Entry(w1: bytes, serial: bytes, w2: bytes, w3: bytes, obj: Object, w4: bytes)

  /** `w0 { w1 "entries" w2 : w3 { blank or entries } w4 }` */
  datatype Document = Document(
    w0: bytes, w1: bytes, w2: bytes, w3: bytes, blank: bytes, entries: seq<Entry>, w4: bytes)

  const ENTRIES: bytes := Ascii("entries")

  predicate IsMember(m: Member) {
    AllWs(m.w1) && IsBody(m.key) && AllWs(m.w2) && AllWs(m.w3) && IsBody(m.val) && AllWs(m.w4)
  }

  predicate IsObject(o: Object) {
    if o.members == [] then AllWs(o.blank)
    else o.blank == [] && forall m | m in o.members :: IsMember(m)
  }

  predicate IsEntry(e: Entry) {
    AllWs(e.w1) && IsBody(e.serial) && AllWs(e.w2) && AllWs(e.w3) && IsObject(e.obj) && AllWs(e.w4)
  }

  predicate IsDocument(d: Document) {
    && AllWs(d.w0) && AllWs(d.w1) && AllWs(d.w2) && AllWs(d.w3) && AllWs(d.w4)
    && if d.entries == [] then AllWs(d.blank) else d.blank == [] && forall e | e in d.entries :: IsEntry(e)
  }

  // Printing, each function in front of a given continuation.

  function MemberText(m: Member, rest: bytes): bytes {
    m.w1 + (Quoted(m.key) + (m.w2 + ([COLON] + (m.w3 + (Quoted(m.val) + (m.w4 + rest))))))
  }

  function MembersText(ms: seq<Member>, rest: bytes): bytes
    requires ms != []
  {
    MemberText(ms[0], if |ms| == 1 then rest else [COMMA] + MembersText(ms[1..], rest))
  }

  function ObjectText(o: Object, rest: bytes): bytes {
    [OPEN] + if o.members == [] then o.blank + ([CLOSE] + rest) else MembersText(o.members, [CLOSE] + rest)
  }

  function EntryText(e: Entry, rest: bytes): bytes {
    e.w1 + (Quoted(e.serial) + (e.w2 + ([COLON] + (e.w3 + ObjectText(e.obj, e.w4 + rest)))))
  }

  function EntriesText(es: seq<Entry>, rest: bytes): bytes
    requires es != []
  {
    EntryText(es[0], if |es| == 1 then rest else [COMMA] + EntriesText(es[1..], rest))
  }

  function BodyText(d: Document, rest: bytes): bytes {
    if d.entries == [] then d.blank + ([CLOSE] + rest) else EntriesText(d.entries, [CLOSE] + rest)
  }

  function PreambleText(d: Document, rest: bytes): bytes {
    d.w0 + ([OPEN] + (d.w1 + (Quoted(ENTRIES) + (d.w2 + ([COLON] + (d.w3 + ([OPEN] + rest)))))))
  }

  function DocumentText(d: Document, rest: bytes): bytes {
    PreambleText(d, BodyText(d, d.w4 + ([CLOSE] + rest)))
  }

  // Parsing: a tree and what follows it.

  function ParseMember(s: bytes): (r: Option<(Member, bytes)>)
    ensures r.Some? ==> |r.value.1| < |s|
  {
    var (w1, s1) := Ws(s);
    var (key, s2) :- String(s1);
    var (w2, s3) := Ws(s2);
    var s4 :- Token(COLON, s3);
    var (w3, s5) := Ws(s4);
    var (val, s6) :- String(s5);
    var (w4, s7) := Ws(s6);
    Some((Member(w1, key, w2, w3, val, w4), s7))
  }

  /** Members separated by commas; a comma must be followed by another member. */
  function ParseMembers(s: bytes): (r: Option<(seq<Member>, bytes)>)
    ensures r.Some? ==> r.value.0 != [] && |r.value.1| < |s|
    decreases |s|
  {
    var (m, rest) :- ParseMember(s);
    if rest != [] && rest[0] == COMMA then
      var (ms, tail) :- ParseMembers(rest[1..]);
      Some(([m] + ms, tail))
    else Some(([m], rest))
  }

  function ParseObject(s: bytes): (r: Option<(Object, bytes)>)
    ensures r.Some? ==> |r.value.1| < |s|
  {
    var s1 :- Token(OPEN, s);
    var (blank, s2) := Ws(s1);
    if s2 != [] && s2[0] == CLOSE then Some((Object(blank, []), s2[1..]))
    else
      var (ms, s3) :- ParseMembers(s1);
      var s4 :- Token(CLOSE, s3);
      Some((Object([], ms), s4))
  }

  function ParseEntry(s: bytes): (r: Option<(Entry, bytes)>)
    ensures r.Some? ==> |r.value.1| < |s|
  {
    var (w1, s1) := Ws(s);
    var (serial, s2) :- String(s1);
    var (w2, s3) := Ws(s2);
    var s4 :- Token(COLON, s3);
    var (w3, s5) := Ws(s4);
    var (obj, s6) :- ParseObject(s5);
    var (w4, s7) := Ws(s6);
    Some((Entry(w1, serial, w2, w3, obj, w4), s7))
  }

  function ParseEntries(s: bytes): (r: Option<(seq<Entry>, bytes)>)
    ensures r.Some? ==> r.value.0 != [] && |r.value.1| < |s|
    decreases |s|
  {
    var (e, rest) :- ParseEntry(s);
    if rest != [] && rest[0] == COMMA then
      var (es, tail) :- ParseEntries(rest[1..]);
      Some(([e] + es, tail))
    else Some(([e], rest))
  }

  /** The blank, or the entries, and what follows the brace that closes them. */
  function ParseBody(s: bytes): Option<(bytes, seq<Entry>, bytes)> {
    var (blank, s1) := Ws(s);
    if s1 != [] && s1[0] == CLOSE then Some((blank, [], s1[1..]))
    else
      var (es, s2) :- ParseEntries(s);
      var s3 :- Token(CLOSE, s2);
      Some(([], es, s3))
  }

  function ParseDocument(s: bytes): Option<(Document, bytes)> {
    var (w0, s1) := Ws(s);
    var s2 :- Token(OPEN, s1);
    var (w1, s3) := Ws(s2);
    var (key, s4) :- String(s3);
    if key != ENTRIES then None
    else
      var (w2, s5) := Ws(s4);
      var s6 :- Token(COLON, s5);
      var (w3, s7) := Ws(s6);
      var s8 :- Token(OPEN, s7);
      var (blank, es, s9) :- ParseBody(s8);
      var (w4, s10) := Ws(s9);
      var s11 :- Token(CLOSE, s10);
      Some((Document(w0, w1, w2, w3, blank, es, w4), s11))
  }

  // Printing then parsing.

  lemma {:induction false} WsText(w: bytes, rest: bytes)
    requires AllWs(w) && StartsInk(rest)
    ensures Ws(w + rest) == (w, rest)
  {
    if w == [] {
      assert w + rest == rest;
    } else {
      WsText(w[1..], rest);
      assert (w + rest)[1..] == w[1..] + rest;
      assert (w + rest)[..|w|] == w && (w + rest)[|w|..] == rest;
    }
  }

  lemma {:induction false} BodyCountText(b: bytes, rest: bytes)
    requires IsBody(b)
    ensures BodyCount(b + ([QUOTE] + rest)) == Some(|b|)
  {
    var s := b + ([QUOTE] + rest);
    if b == [] {
      assert s == [QUOTE] + rest;
    } else if b[0] == BACKSLASH {
      assert s[2..] == b[2..] + ([QUOTE] + rest);
      BodyCountText(b[2..], rest);
    } else {
      assert s[1..] == b[1..] + ([QUOTE] + rest);
      BodyCountText(b[1..], rest);
    }
  }

  /** A string with well-formed escapes comes back octet for octet. */
  lemma StringText(b: bytes, rest: bytes)
    requires IsBody(b)
    ensures String(Quoted(b) + rest) == Some((b, rest))
    ensures StartsInk(Quoted(b) + rest)
  {
    var t := b + ([QUOTE] + rest);
    assert Quoted(b) + rest == [QUOTE] + t;
    assert (Quoted(b) + rest)[1..] == t;
    BodyCountText(b, rest);
    assert t[..|b|] == b && t[|b| + 1..] == rest;
  }

  lemma TokenText(c: byte, rest: bytes)
    ensures Token(c, [c] + rest) == Some(rest)
  {
  }

  lemma MemberParses(m: Member, rest: bytes)
    requires IsMember(m) && StartsInk(rest)
    ensures ParseMember(MemberText(m, rest)) == Some((m, rest))
  {
    hide Ws, String, Quoted, AllWs, IsBody;
    var t6 := m.w4 + rest;
    var t5 := Quoted(m.val) + t6;
    var t4 := m.w3 + t5;
    var t3 := [COLON] + t4;
    var t2 := m.w2 + t3;
    var t1 := Quoted(m.key) + t2;
    StringText(m.key, t2);
    StringText(m.val, t6);
    WsText(m.w1, t1);
    WsText(m.w2, t3);
    TokenText(COLON, t4);
    WsText(m.w3, t5);
    WsText(m.w4, rest);
  }

  lemma {:induction false} MembersParse(ms: seq<Member>, rest: bytes)
    requires ms != [] && forall m | m in ms :: IsMember(m)
    requires StartsInk(rest) && (rest == [] || rest[0] != COMMA)
    ensures ParseMembers(MembersText(ms, rest)) == Some((ms, rest))
  {
    hide ParseMember, MemberText, IsMember;
    if |ms| == 1 {
      MemberParses(ms[0], rest);
      assert ms == [ms[0]];
    } else {
      var next := MembersText(ms[1..], rest);
      MembersParse(ms[1..], rest);
      MemberParses(ms[0], [COMMA] + next);
      assert ([COMMA] + next)[1..] == next;
      assert ms == [ms[0]] + ms[1..];
    }
  }

  /** The first thing a member or entry shows after blanks is a quote, so it is not a closing brace. */
  lemma QuoteFirst(w: bytes, b: bytes, rest: bytes)
    requires AllWs(w) && IsBody(b)
    ensures Ws(w + (Quoted(b) + rest)) == (w, Quoted(b) + rest)
    ensures (Quoted(b) + rest)[0] == QUOTE
  {
    StringText(b, rest);
    WsText(w, Quoted(b) + rest);
  }

  lemma ObjectParses(o: Object, rest: bytes)
    requires IsObject(o)
    ensures ParseObject(ObjectText(o, rest)) == Some((o, rest))
    ensures ObjectText(o, rest) != [] && ObjectText(o, rest)[0] == OPEN
  {
    hide Ws, ParseMembers;
    var inner := ObjectText(o, rest)[1..];
    if o.members == [] {
      assert inner == o.blank + ([CLOSE] + rest);
      WsText(o.blank, [CLOSE] + rest);
      assert ([CLOSE] + rest)[1..] == rest;
    } else {
      assert inner == MembersText(o.members, [CLOSE] + rest);
      MembersParse(o.members, [CLOSE] + rest);
      var m := o.members[0];
      assert IsMember(m);
      var tail := if |o.members| == 1 then [CLOSE] + rest else [COMMA] + MembersText(o.members[1..], [CLOSE] + rest);
      QuoteFirst(m.w1, m.key, m.w2 + ([COLON] + (m.w3 + (Quoted(m.val) + (m.w4 + tail)))));
      TokenText(CLOSE, rest);
    }
  }

  lemma EntryParses(e: Entry, rest: bytes)
    requires IsEntry(e) && StartsInk(rest)
    ensures ParseEntry(EntryText(e, rest)) == Some((e, rest))
  {
    hide Ws, String, Quoted, AllWs, IsBody, ParseObject, ObjectText, IsObject;
    var t6 := e.w4 + rest;
    var t5 := ObjectText(e.obj, t6);
    var t4 := e.w3 + t5;
    var t3 := [COLON] + t4;
    var t2 := e.w2 + t3;
    var t1 := Quoted(e.serial) + t2;
    StringText(e.serial, t2);
    ObjectParses(e.obj, t6);
    WsText(e.w1, t1);
    WsText(e.w2, t3);
    TokenText(COLON, t4);
    WsText(e.w3, t5);
    WsText(e.w4, rest);
  }

  lemma {:induction false} EntriesParse(es: seq<Entry>, rest: bytes)
    requires es != [] && forall e | e in es :: IsEntry(e)
    requires StartsInk(rest) && (rest == [] || rest[0] != COMMA)
    ensures ParseEntries(EntriesText(es, rest)) == Some((es, rest))
  {
    hide ParseEntry, EntryText, IsEntry;
    if |es| == 1 {
      EntryParses(es[0], rest);
      assert es == [es[0]];
    } else {
      var next := EntriesText(es[1..], rest);
      EntriesParse(es[1..], rest);
      EntryParses(es[0], [COMMA] + next);
      assert ([COMMA] + next)[1..] == next;
      assert es == [es[0]] + es[1..];
    }
  }

  lemma BodyParses(d: Document, rest: bytes)
    requires IsDocument(d)
    ensures ParseBody(BodyText(d, rest)) == Some((d.blank, d.entries, rest))
  {
    hide Ws, ParseEntries;
    if d.entries == [] {
      WsText(d.blank, [CLOSE] + rest);
      assert ([CLOSE] + rest)[1..] == rest;
    } else {
      EntriesParse(d.entries, [CLOSE] + rest);
      var e := d.entries[0];
      assert IsEntry(e);
      var tail := if |d.entries| == 1 then [CLOSE] + rest else [COMMA] + EntriesText(d.entries[1..], [CLOSE] + rest);
      QuoteFirst(e.w1, e.serial, e.w2 + ([COLON] + (e.w3 + ObjectText(e.obj, e.w4 + tail))));
      TokenText(CLOSE, rest);
    }
  }

  lemma {:induction false} PlainBody(b: bytes)
    requires forall i | 0 <= i < |b| :: b[i] != QUOTE && b[i] != BACKSLASH
    ensures IsBody(b)
  {
    if b == [] {
    } else {
      PlainBody(b[1..]);
    }
  }

  /** Every document comes back from its text, whatever the blanks and whatever follows it. */
  lemma DocumentParses(d: Document, rest: bytes)
    requires IsDocument(d)
    ensures ParseDocument(DocumentText(d, rest)) == Some((d, rest))
  {
    hide Ws, String, Quoted, AllWs, IsBody, ParseBody, BodyText;
    var t9 := d.w4 + ([CLOSE] + rest);
    var t8 := BodyText(d, t9);
    var t7 := [OPEN] + t8;
    var t6 := d.w3 + t7;
    var t5 := [COLON] + t6;
    var t4 := d.w2 + t5;
    var t3 := Quoted(ENTRIES) + t4;
    var t2 := d.w1 + t3;
    var t1 := [OPEN] + t2;
    PlainBody(ENTRIES);
    StringText(ENTRIES, t4);
    WsText(d.w0, t1);
    TokenText(OPEN, t2);
    WsText(d.w1, t3);
    WsText(d.w2, t5);
    TokenText(COLON, t6);
    WsText(d.w3, t7);
    TokenText(OPEN, t8);
    BodyParses(d, t9);
    WsText(d.w4, [CLOSE] + rest);
    TokenText(CLOSE, rest);
  }

  // Parsing then printing: nothing outside the grammar is accepted.

  lemma {:induction false} WsParts(s: bytes)
    ensures AllWs(Ws(s).0) && StartsInk(Ws(s).1)
  {
    if StartsInk(s) {
    } else {
      WsParts(s[1..]);
      assert s[..WsCount(s)] == [s[0]] + s[1..][..WsCount(s[1..])];
    }
  }

  lemma {:induction false} BodyCountSound(s: bytes)
    requires BodyCount(s).Some?
    ensures IsBody(s[..BodyCount(s).value])
  {
    var n := BodyCount(s).value;
    if s[0] == BACKSLASH {
      BodyCountSound(s[2..]);
      assert s[..n][2..] == s[2..][..n - 2];
    } else if s[0] != QUOTE {
      BodyCountSound(s[1..]);
      assert s[..n][1..] == s[1..][..n - 1];
    }
  }

  lemma StringSound(s: bytes)
    requires String(s).Some?
    ensures var (b, rest) := String(s).value;
            IsBody(b) && s == Quoted(b) + rest
  {
    var body := s[1..];
    var n := BodyCount(body).value;
    BodyCountSound(body);
    assert s == [QUOTE] + body[..n] + [QUOTE] + body[n + 1..];
  }

  lemma MemberSound(s: bytes)
    requires ParseMember(s).Some?
    ensures var (m, rest) := ParseMember(s).value;
            IsMember(m) && s == MemberText(m, rest) && StartsInk(rest)
  {
    hide Ws, String, AllWs, IsBody, Quoted, StartsInk;
    var (w1, s1) := Ws(s);
    var (key, s2) := String(s1).value;
    var (w2, s3) := Ws(s2);
    var s4 := Token(COLON, s3).value;
    var (w3, s5) := Ws(s4);
    var (val, s6) := String(s5).value;
    WsParts(s);
    StringSound(s1);
    WsParts(s2);
    WsParts(s4);
    StringSound(s5);
    WsParts(s6);
  }

  lemma {:induction false} MembersSound(s: bytes)
    requires ParseMembers(s).Some?
    ensures var (ms, rest) := ParseMembers(s).value;
            (forall m | m in ms :: IsMember(m)) && s == MembersText(ms, rest)
            && StartsInk(rest) && (rest == [] || rest[0] != COMMA)
    decreases |s|
  {
    hide ParseMember, MemberText, IsMember;
    MemberSound(s);
    var (m, rest) := ParseMember(s).value;
    if rest == [] || rest[0] != COMMA {
    } else {
      MembersSound(rest[1..]);
      var (ms, tail) := ParseMembers(rest[1..]).value;
      assert ([m] + ms)[1..] == ms;
      assert rest == [COMMA] + rest[1..];
    }
  }

  lemma ObjectSound(s: bytes)
    requires ParseObject(s).Some?
    ensures var (o, rest) := ParseObject(s).value;
            IsObject(o) && s == ObjectText(o, rest)
  {
    hide Ws, ParseMembers, MembersText, IsMember, AllWs;
    var s1 := Token(OPEN, s).value;
    WsParts(s1);
    var (blank, s2) := Ws(s1);
    if s2 != [] && s2[0] == CLOSE {
      assert s2 == [CLOSE] + s2[1..];
    } else {
      MembersSound(s1);
    }
  }

  lemma EntrySound(s: bytes)
    requires ParseEntry(s).Some?
    ensures var (e, rest) := ParseEntry(s).value;
            IsEntry(e) && s == EntryText(e, rest) && StartsInk(rest)
  {
    hide Ws, String, AllWs, IsBody, Quoted, StartsInk, ParseObject, ObjectText, IsObject;
    var (w1, s1) := Ws(s);
    var (serial, s2) := String(s1).value;
    var (w2, s3) := Ws(s2);
    var s4 := Token(COLON, s3).value;
    var (w3, s5) := Ws(s4);
    var (obj, s6) := ParseObject(s5).value;
    WsParts(s);
    StringSound(s1);
    WsParts(s2);
    WsParts(s4);
    ObjectSound(s5);
    WsParts(s6);
  }

  lemma {:induction false} EntriesSound(s: bytes)
    requires ParseEntries(s).Some?
    ensures var (es, rest) := ParseEntries(s).value;
            (forall e | e in es :: IsEntry(e)) && s == EntriesText(es, rest)
            && StartsInk(rest) && (rest == [] || rest[0] != COMMA)
    decreases |s|
  {
    hide ParseEntry, EntryText, IsEntry;
    EntrySound(s);
    var (e, rest) := ParseEntry(s).value;
    if rest == [] || rest[0] != COMMA {
    } else {
      EntriesSound(rest[1..]);
      var (es, tail) := ParseEntries(rest[1..]).value;
      assert ([e] + es)[1..] == es;
      assert rest == [COMMA] + rest[1..];
    }
  }

  lemma BodySound(s: bytes)
    requires ParseBody(s).Some?
    ensures var (blank, es, rest) := ParseBody(s).value;
            && (if es == [] then AllWs(blank) else blank == [] && forall e | e in es :: IsEntry(e))
            && s == if es == [] then blank + ([CLOSE] + rest) else EntriesText(es, [CLOSE] + rest)
  {
    hide Ws, ParseEntries, EntriesText, IsEntry, AllWs;
    WsParts(s);
    var (blank, s1) := Ws(s);
    if s1 != [] && s1[0] == CLOSE {
      assert s1 == [CLOSE] + s1[1..];
    } else {
      EntriesSound(s);
    }
  }

  lemma DocumentSound(s: bytes)
    requires ParseDocument(s).Some?
    ensures var (d, rest) := ParseDocument(s).value;
            IsDocument(d) && s == DocumentText(d, rest)
  {
    hide Ws, String, AllWs, IsBody, Quoted, ParseBody, EntriesText, IsEntry;
    var (w0, s1) := Ws(s);
    var s2 := Token(OPEN, s1).value;
    var (w1, s3) := Ws(s2);
    var (key, s4) := String(s3).value;
    var (w2, s5) := Ws(s4);
    var s6 := Token(COLON, s5).value;
    var (w3, s7) := Ws(s6);
    var s8 := Token(OPEN, s7).value;
    var (blank, es, s9) := ParseBody(s8).value;
    WsParts(s);
    WsParts(s2);
    StringSound(s3);
    WsParts(s4);
    WsParts(s6);
    BodySound(s8);
    WsParts(s9);
  }

  /** The parser is exactly the inverse of printing: one tree for each text of the grammar. */
  lemma ParseDocumentExact(s: bytes, d: Document, rest: bytes)
    ensures ParseDocument(s) == Some((d, rest)) <==> IsDocument(d) && s == DocumentText(d, rest)
  {
    hide ParseDocument, DocumentText, IsDocument;
    if ParseDocument(s) == Some((d, rest)) {
      DocumentSound(s);
    }
    if IsDocument(d) && s == DocumentText(d, rest) {
      DocumentParses(d, rest);
    }
  }
}
