/** `StatusList::from_json`: the cursor over the status-list text and the map it builds. */
module StatusLists {
  import opened Bytes
  import opened StatusText

  datatype StatusEntry = StatusEntry(status: bytes, reason: bytes)

  const STATUS: bytes := Ascii("status")
  const REASON: bytes := Ascii("reason")

  /** ASCII lower-casing; octets outside A to Z are kept. */
  function Lower(s: bytes): (r: bytes)
    ensures |r| == |s|
  {
    seq(|s|, i requires 0 <= i < |s| => if 65 <= s[i] <= 90 then s[i] + 32 else s[i])
  }

  /** Value of the last member named `key`, empty if there is none. */
  function LastMember(ms: seq<Member>, key: bytes): bytes {
    if ms == [] then []
    else if ms[|ms| - 1].key == key then ms[|ms| - 1].val
    else LastMember(ms[..|ms| - 1], key)
  }

  function Status(o: Object): StatusEntry {
    StatusEntry(LastMember(o.members, STATUS), LastMember(o.members, REASON))
  }

  /** The entries keyed by lower-cased serial, later entries replacing earlier ones. */
  function Index(es: seq<Entry>): map<bytes, StatusEntry> {
    if es == [] then map[]
    else Index(es[..|es| - 1])[Lower(es[|es| - 1].serial) := Status(es[|es| - 1].obj)]
  }

  /** Leading byte-order marks. */
  function DropMarks(s: bytes): (t: bytes)
    ensures |t| <= |s|
  {
    if |s| >= 3 && s[0] == 0xEF && s[1] == 0xBB && s[2] == 0xBF then DropMarks(s[3..]) else s
  }

  /** What `str::trim` removes within ASCII. */
  predicate IsTrimmed(b: byte) {
    9 <= b <= 13 || b == 32
  }

  function TrimStart(s: bytes): bytes {
    if s != [] && IsTrimmed(s[0]) then TrimStart(s[1..]) else s
  }

  function TrimEnd(s: bytes): bytes {
    if s != [] && IsTrimmed(s[|s| - 1]) then TrimEnd(s[..|s| - 1]) else s
  }

  function Trim(s: bytes): bytes {
    TrimEnd(TrimStart(DropMarks(s)))
  }

  function ParseStatusList(json: bytes): Option<map<bytes, StatusEntry>> {
    var (d, _) :- ParseDocument(Trim(json));
    Some(Index(d.entries))
  }

  lemma EntryEnds(s: bytes)
    requires ParseEntry(s).Some?
    ensures AfterWs(ParseEntry(s).value.1) == ParseEntry(s).value.1
  {
    EntrySound(s);
  }

  lemma NoMembers()
    ensures forall key :: LastMember([], key) == []
  {
  }

  lemma LastMemberSnoc(ms: seq<Member>, m: Member, key: bytes)
    ensures LastMember(ms + [m], key) == if m.key == key then m.val else LastMember(ms, key)
  {
    assert (ms + [m])[..|ms|] == ms;
  }

  lemma WsStep(s: bytes)
    requires !StartsInk(s)
    ensures AfterWs(s) == AfterWs(s[1..])
  {
    assert s[WsCount(s)..] == s[1..][WsCount(s[1..])..];
  }

  lemma WsStop(s: bytes)
    requires StartsInk(s)
    ensures AfterWs(s) == s
  {
  }

  function Plus(o: Option<nat>, k: nat): Option<nat> {
    if o.Some? then Some(o.value + k) else None
  }

  lemma BodyStep(s: bytes)
    requires s != []
    ensures s[0] == BACKSLASH && |s| < 2 ==> BodyCount(s) == None
    ensures s[0] == BACKSLASH && |s| >= 2 ==> BodyCount(s) == Plus(BodyCount(s[2..]), 2)
    ensures s[0] == QUOTE ==> BodyCount(s) == Some(0)
    ensures s[0] != BACKSLASH && s[0] != QUOTE ==> BodyCount(s) == Plus(BodyCount(s[1..]), 1)
  {
  }

  lemma BodyEnd(s: bytes)
    requires s == []
    ensures BodyCount(s) == None
  {
  }

  lemma NamesDiffer()
    ensures STATUS != REASON
  {
    assert STATUS[0] == 's' as int && REASON[0] == 'r' as int;
  }

  lemma AfterWsInk(s: bytes)
    ensures StartsInk(AfterWs(s)) && AfterWs(AfterWs(s)) == AfterWs(s)
  {
    WsParts(s);
  }

  lemma AfterWsTwice(s: bytes)
    ensures AfterWs(AfterWs(s)) == AfterWs(s)
  {
    AfterWsInk(s);
  }

  lemma AfterWsIsWs(s: bytes)
    ensures AfterWs(s) == Ws(s).1
  {
  }

  lemma MemberEnds(s: bytes)
    requires ParseMember(s).Some?
    ensures AfterWs(ParseMember(s).value.1) == ParseMember(s).value.1
  {
    MemberSound(s);
  }

  /** The shared `pos` that every helper advances. */
  class Cursor {
    const data: bytes
    var pos: nat

    ghost predicate Valid()
      reads this
    {
      pos <= |data|
    }

    ghost function Rest(): bytes
      reads this
      requires Valid()
    {
      data[pos..]
    }

    constructor (data: bytes)
      ensures Valid() && Rest() == data
    {
      this.data := data;
      pos := 0;
    }

    function Peek(): Option<byte>
      reads this
    {
      if pos < |data| then Some(data[pos]) else None
    }

    method SkipWs()
      requires Valid()
      modifies this
      ensures Valid() && Rest() == AfterWs(old(Rest()))
    {
      hide AfterWs;
      while pos < |data| && IsWs(data[pos])
        invariant Valid()
        invariant AfterWs(Rest()) == AfterWs(old(Rest()))
        decreases |data| - pos
      {
        WsStep(Rest());
        assert Rest()[1..] == data[pos + 1..];
        pos := pos + 1;
      }
      WsStop(Rest());
    }

    /** White space, then one expected octet. */
    method ExpectChar(c: byte) returns (ok: bool)
      requires Valid()
      modifies this
      ensures Valid()
      ensures match Token(c, AfterWs(old(Rest())))
              case None => !ok
              case Some(rest) => ok && Rest() == rest
    {
      hide AfterWs;
      SkipWs();
      if Peek() != Some(c) {
        return false;
      }
      assert Rest()[1..] == data[pos + 1..];
      pos := pos + 1;
      return true;
    }

    /** The scan to the closing quote; a position it leaves behind on failure is never used again. */
    method ScanBody(start: nat) returns (n: Option<nat>)
      requires start <= |data|
      ensures n == BodyCount(data[start..])
    {
      hide BodyCount;
      ghost var body := data[start..];
      var cur := start;
      assert body[0..] == body;
      while cur < |data|
        invariant start <= cur
        invariant cur <= |data| ==> BodyCount(body) == Plus(BodyCount(body[cur - start..]), cur - start)
        invariant cur > |data| ==> BodyCount(body) == None
        decreases |data| - cur
      {
        var c := data[cur];
        ghost var t := body[cur - start..];
        BodyStep(t);
        assert t[1..] == body[cur + 1 - start..];
        if c == BACKSLASH {
          assert cur + 2 <= |data| ==> t[2..] == body[cur + 2 - start..];
          cur := cur + 2;
        } else if c == QUOTE {
          return Some(cur - start);
        } else {
          cur := cur + 1;
        }
      }
      if cur == |data| {
        BodyEnd(body[cur - start..]);
      }
      return None;
    }

    /** White space, then a quoted string, raw. */
    method ReadString() returns (r: Option<bytes>)
      requires Valid()
      modifies this
      ensures Valid()
      ensures match String(AfterWs(old(Rest())))
              case None => r == None
              case Some((b, rest)) => r == Some(b) && Rest() == rest
    {
      hide AfterWs, BodyCount;
      SkipWs();
      if Peek() != Some(QUOTE) {
        return None;
      }
      ghost var s := Rest();
      pos := pos + 1;
      var n := ScanBody(pos);
      assert s[1..] == Rest();
      if n.None? {
        return None;
      }
      assert Rest()[..n.value] == data[pos..pos + n.value];
      assert Rest()[n.value + 1..] == data[pos + n.value + 1..];
      r := Some(data[pos..pos + n.value]);
      pos := pos + n.value + 1;
    }

    /** One turn of the loop in `read_status_object`, entered with the white space of `from` skipped. */
    method ReadMember(ghost from: bytes) returns (r: Option<(bytes, bytes)>)
      requires Valid() && Rest() == AfterWs(from)
      modifies this
      ensures Valid()
      ensures match ParseMember(from)
              case None => r == None
              case Some((m, rest)) => r == Some((m.key, m.val)) && Rest() == rest
    {
      hide Ws, String;
      AfterWsTwice(from);
      var key := ReadString();
      if key.None? {
        return None;
      }
      AfterWsTwice(Rest());
      SkipWs();
      var ok := ExpectChar(COLON);
      if !ok {
        return None;
      }
      var val := ReadString();
      if val.None? {
        return None;
      }
      SkipWs();
      return Some((key.value, val.value));
    }

    /** The loop of `read_status_object`: comma-separated members, the last of each name kept. */
    method ReadMembers(ghost inner: bytes) returns (r: Option<StatusEntry>)
      requires Valid() && Rest() == AfterWs(inner)
      modifies this
      ensures Valid()
      ensures match ParseMembers(inner)
              case None => r == None
              case Some((ms, rest)) =>
                r == Some(StatusEntry(LastMember(ms, STATUS), LastMember(ms, REASON)))
                && Rest() == rest && AfterWs(rest) == rest
    {
      hide Ws, ParseMember, LastMember, AfterWs;
      NoMembers();
      NamesDiffer();
      var status: bytes, reason: bytes := [], [];
      ghost var seen: seq<Member>, from := [], inner;
      PrependToNothing(ParseMembers(inner));
      while true
        invariant Valid() && Rest() == AfterWs(from)
        invariant status == LastMember(seen, STATUS) && reason == LastMember(seen, REASON)
        invariant ParseMembers(inner) == PrependTo(seen, ParseMembers(from))
        decreases |from|
      {
        var kv := ReadMember(from);
        if kv.None? {
          return None;
        }
        var (key, val) := kv.value;
        ghost var (m, rest) := ParseMember(from).value;
        LastMemberSnoc(seen, m, STATUS);
        LastMemberSnoc(seen, m, REASON);
        if key == STATUS {
          status := val;
        } else if key == REASON {
          reason := val;
        }
        if Peek() != Some(COMMA) {
          MemberEnds(from);
          assert ParseMembers(from) == Some(([m], rest));
          return Some(StatusEntry(status, reason));
        }
        assert rest[1..] == data[pos + 1..];
        pos := pos + 1;
        PrependToTwice(seen, [m], ParseMembers(rest[1..]));
        seen, from := seen + [m], rest[1..];
        SkipWs();
      }
    }

    /** `read_status_object`. */
    method ReadStatusObject() returns (r: Option<StatusEntry>)
      requires Valid()
      modifies this
      ensures Valid()
      ensures match ParseObject(AfterWs(old(Rest())))
              case None => r == None
              case Some((o, rest)) => r == Some(Status(o)) && Rest() == rest
    {
      hide Ws, ParseMember, LastMember, AfterWs;
      var ok := ExpectChar(OPEN);
      if !ok {
        return None;
      }
      ghost var inner := Rest();
      AfterWsIsWs(inner);
      SkipWs();
      if Peek() == Some(CLOSE) {
        AfterWsInk(inner);
        ok := ExpectChar(CLOSE);
        NoMembers();
        return Some(StatusEntry([], []));
      }
      var members := ReadMembers(inner);
      if members.None? {
        return None;
      }
      ok := ExpectChar(CLOSE);
      if !ok {
        return None;
      }
      return members;
    }

    /** One turn of the loop in `from_json`, entered with the white space of `from` skipped. */
    method ReadEntry(ghost from: bytes) returns (r: Option<(bytes, StatusEntry)>)
      requires Valid() && Rest() == AfterWs(from)
      modifies this
      ensures Valid()
      ensures match ParseEntry(from)
              case None => r == None
              case Some((e, rest)) => r == Some((e.serial, Status(e.obj))) && Rest() == rest
    {
      hide Ws, String, ParseObject, Status;
      AfterWsTwice(from);
      var serial := ReadString();
      if serial.None? {
        return None;
      }
      AfterWsTwice(Rest());
      SkipWs();
      var ok := ExpectChar(COLON);
      if !ok {
        return None;
      }
      AfterWsTwice(Rest());
      SkipWs();
      var entry := ReadStatusObject();
      if entry.None? {
        return None;
      }
      SkipWs();
      return Some((serial.value, entry.value));
    }

    /** The loop of `from_json`: comma-separated entries inserted under their lower-cased serials. */
    method ReadEntries(ghost inner: bytes) returns (r: Option<map<bytes, StatusEntry>>)
      requires Valid() && Rest() == AfterWs(inner)
      modifies this
      ensures Valid()
      ensures match ParseEntries(inner)
              case None => r == None
              case Some((es, rest)) => r == Some(Index(es)) && Rest() == rest && AfterWs(rest) == rest
    {
      hide Ws, ParseEntry, AfterWs, Status, Lower;
      var entries: map<bytes, StatusEntry> := map[];
      ghost var seen: seq<Entry>, from := [], inner;
      PrependToNothing(ParseEntries(inner));
      while true
        invariant Valid() && Rest() == AfterWs(from)
        invariant entries == Index(seen)
        invariant ParseEntries(inner) == PrependTo(seen, ParseEntries(from))
        decreases |from|
      {
        var kv := ReadEntry(from);
        if kv.None? {
          return None;
        }
        var (serial, entry) := kv.value;
        ghost var (e, rest) := ParseEntry(from).value;
        assert (seen + [e])[..|seen|] == seen;
        entries := entries[Lower(serial) := entry];
        if Peek() != Some(COMMA) {
          EntryEnds(from);
          assert ParseEntries(from) == Some(([e], rest));
          return Some(entries);
        }
        assert rest[1..] == data[pos + 1..];
        pos := pos + 1;
        PrependToTwice(seen, [e], ParseEntries(rest[1..]));
        seen, from := seen + [e], rest[1..];
        SkipWs();
      }
    }
  }

  /** The part of `from_json` between the braces of `entries`, closing brace included. */
  method ReadBody(c: Cursor) returns (r: Option<map<bytes, StatusEntry>>)
    requires c.Valid()
    modifies c
    ensures c.Valid()
    ensures match ParseBody(old(c.Rest()))
            case None => r == None
            case Some((_, es, rest)) => r == Some(Index(es)) && c.Rest() == rest
  {
    hide Ws, ParseEntries, AfterWs;
    ghost var inner := c.Rest();
    AfterWsIsWs(inner);
    AfterWsTwice(inner);
    c.SkipWs();
    var entries: Option<map<bytes, StatusEntry>> := Some(map[]);
    if c.Peek() != Some(CLOSE) {
      entries := c.ReadEntries(inner);
      if entries.None? {
        return None;
      }
    }
    var ok := c.ExpectChar(CLOSE);
    if !ok {
      return None;
    }
    return entries;
  }

  /** `StatusList::from_json`. */
  method FromJson(json: bytes) returns (r: Option<map<bytes, StatusEntry>>)
    ensures r == ParseStatusList(json)
  {
    hide Ws, String, ParseEntries, Index, AfterWs, Trim;
    var trimmed := Trim(json);
    var c := new Cursor(trimmed);
    AfterWsIsWs(c.Rest());
    var ok := c.ExpectChar(OPEN);
    if !ok {
      return None;
    }
    AfterWsIsWs(c.Rest());
    AfterWsTwice(c.Rest());
    c.SkipWs();
    var key := c.ReadString();
    if key.None? || key.value != ENTRIES {
      return None;
    }
    AfterWsIsWs(c.Rest());
    AfterWsTwice(c.Rest());
    c.SkipWs();
    ok := c.ExpectChar(COLON);
    if !ok {
      return None;
    }
    AfterWsIsWs(c.Rest());
    AfterWsTwice(c.Rest());
    c.SkipWs();
    ok := c.ExpectChar(OPEN);
    if !ok {
      return None;
    }
    ghost var inner := c.Rest();
    var entries := ReadBody(c);
    if entries.None? {
      return None;
    }
    AfterWsIsWs(c.Rest());
    AfterWsTwice(c.Rest());
    c.SkipWs();
    ok := c.ExpectChar(CLOSE);
    if !ok {
      return None;
    }
    return entries;
  }

  // What a parsed list means, and inversion.

  /** A serial is listed exactly when some entry has it up to case. */
  lemma {:induction false} IndexKeys(es: seq<Entry>, key: bytes)
    ensures key in Index(es) <==> exists i | 0 <= i < |es| :: Lower(es[i].serial) == key
  {
    hide Lower, Status;
    if es == [] {
    } else {
      IndexKeys(es[..|es| - 1], key);
    }
  }

  /** Lower-casing octet by octet: A to Z move up by 32, all others stay. */
  lemma LowerOctets(s: bytes)
    ensures |Lower(s)| == |s|
    ensures forall i | 0 <= i < |s| :: 65 <= s[i] <= 90 ==> Lower(s)[i] == s[i] + 32
    ensures forall i | 0 <= i < |s| :: s[i] < 65 || s[i] > 90 ==> Lower(s)[i] == s[i]
  {
  }

  /** `a` spells `b`, in which there is no upper-case letter, in either case. */
  predicate Spells(a: bytes, b: bytes) {
    |a| == |b| && forall i | 0 <= i < |a| :: a[i] == b[i] || (97 <= b[i] <= 122 && a[i] == b[i] - 32)
  }

  lemma LowerSpells(a: bytes, b: bytes)
    requires forall i | 0 <= i < |b| :: b[i] < 65 || b[i] > 90
    ensures Lower(a) == b <==> Spells(a, b)
  {
    LowerOctets(a);
    if Spells(a, b) {
      assert forall i | 0 <= i < |a| :: Lower(a)[i] == b[i];
    }
    if Lower(a) == b {
      forall i | 0 <= i < |a| ensures a[i] == b[i] || (97 <= b[i] <= 122 && a[i] == b[i] - 32) {
        assert Lower(a)[i] == b[i];
      }
    }
  }

  /** It has the status of an entry after which there is no other with the same serial. */
  lemma {:induction false} IndexIsLast(es: seq<Entry>, i: nat)
    requires i < |es| && forall j | i < j < |es| :: Lower(es[j].serial) != Lower(es[i].serial)
    ensures var key := Lower(es[i].serial);
            key in Index(es) && Index(es)[key] == Status(es[i].obj)
  {
    hide Lower, Status;
    if i == |es| - 1 {
    } else {
      IndexIsLast(es[..|es| - 1], i);
    }
  }

  /** A member's value is kept when no later member has its name. */
  lemma {:induction false} LastMemberIsLast(ms: seq<Member>, i: nat)
    requires i < |ms| && forall j | i < j < |ms| :: ms[j].key != ms[i].key
    ensures LastMember(ms, ms[i].key) == ms[i].val
  {
    if i == |ms| - 1 {
    } else {
      LastMemberIsLast(ms[..|ms| - 1], i);
    }
  }

  function Marks(n: nat): bytes {
    if n == 0 then [] else [0xEF, 0xBB, 0xBF] + Marks(n - 1)
  }

  predicate AllTrimmed(s: bytes) {
    forall i | 0 <= i < |s| :: IsTrimmed(s[i])
  }

  lemma {:induction false} DropMarksText(n: nat, s: bytes)
    requires s == [] || s[0] != 0xEF
    ensures DropMarks(Marks(n) + s) == s
  {
    if n == 0 {
      assert Marks(0) + s == s;
    } else {
      DropMarksText(n - 1, s);
      assert (Marks(n) + s)[3..] == Marks(n - 1) + s;
    }
  }

  lemma {:induction false} TrimStartText(w: bytes, s: bytes)
    requires AllTrimmed(w) && s != [] && !IsTrimmed(s[0])
    ensures TrimStart(w + s) == s
  {
    if w == [] {
      assert w + s == s;
    } else {
      TrimStartText(w[1..], s);
      assert (w + s)[1..] == w[1..] + s;
    }
  }

  lemma {:induction false} TrimEndText(s: bytes, tail: bytes)
    requires s != [] && !IsTrimmed(s[|s| - 1])
    ensures TrimEnd(s + tail) == s + TrimEnd(tail)
  {
    if tail == [] {
      assert s + tail == s;
    } else {
      TrimEndText(s, tail[..|tail| - 1]);
      assert (s + tail)[..|s + tail| - 1] == s + tail[..|tail| - 1];
    }
  }

  lemma PreambleTail(d: Document, x: bytes, tail: bytes)
    requires d.w0 == [] && x != []
    ensures var t := PreambleText(d, x);
            PreambleText(d, x + tail) == t + tail && |t| > |x| && t[0] == OPEN && t[|t| - 1] == x[|x| - 1]
  {
    var pre := d.w1 + Quoted(ENTRIES) + d.w2 + [COLON] + d.w3 + [OPEN];
    assert PreambleText(d, x) == [OPEN] + (pre + x);
    assert PreambleText(d, x + tail) == [OPEN] + (pre + (x + tail));
    assert pre + (x + tail) == pre + x + tail;
  }

  lemma MemberTail(m: Member, rest: bytes)
    ensures MemberText(m, rest) == MemberText(m, []) + rest
  {
    var pre := m.w1 + Quoted(m.key) + m.w2 + [COLON] + m.w3 + Quoted(m.val) + m.w4;
    assert MemberText(m, rest) == pre + rest;
    assert MemberText(m, []) == pre;
  }

  lemma {:induction false} MembersTail(ms: seq<Member>, rest: bytes)
    requires ms != []
    ensures MembersText(ms, rest) == MembersText(ms, []) + rest
  {
    hide MemberText;
    if |ms| == 1 {
      MemberTail(ms[0], rest);
    } else {
      MembersTail(ms[1..], rest);
      MemberTail(ms[0], [COMMA] + MembersText(ms[1..], rest));
      MemberTail(ms[0], [COMMA] + MembersText(ms[1..], []));
      assert [COMMA] + (MembersText(ms[1..], []) + rest) == [COMMA] + MembersText(ms[1..], []) + rest;
      assert MemberText(ms[0], []) + ([COMMA] + MembersText(ms[1..], []) + rest)
          == MemberText(ms[0], []) + ([COMMA] + MembersText(ms[1..], [])) + rest;
    }
  }

  lemma ObjectTail(o: Object, rest: bytes)
    ensures ObjectText(o, rest) == ObjectText(o, []) + rest
  {
    if o.members != [] {
      MembersTail(o.members, [CLOSE] + rest);
      MembersTail(o.members, [CLOSE] + []);
      assert [OPEN] + (MembersText(o.members, []) + ([CLOSE] + rest))
          == [OPEN] + (MembersText(o.members, []) + ([CLOSE] + [])) + rest;
    } else {
      assert [OPEN] + (o.blank + ([CLOSE] + rest)) == [OPEN] + (o.blank + ([CLOSE] + [])) + rest;
    }
  }

  lemma EntryTail(e: Entry, rest: bytes)
    ensures EntryText(e, rest) == EntryText(e, []) + rest
  {
    hide ObjectText, Quoted;
    ObjectTail(e.obj, e.w4 + rest);
    ObjectTail(e.obj, e.w4 + []);
    var o := ObjectText(e.obj, []);
    var pre := e.w1 + Quoted(e.serial) + e.w2 + [COLON] + e.w3 + o + e.w4;
    assert EntryText(e, rest) == pre + rest;
    assert EntryText(e, []) == pre;
  }

  lemma {:induction false} EntriesTail(es: seq<Entry>, rest: bytes)
    requires es != []
    ensures EntriesText(es, rest) == EntriesText(es, []) + rest
  {
    hide EntryText;
    if |es| == 1 {
      EntryTail(es[0], rest);
    } else {
      EntriesTail(es[1..], rest);
      EntryTail(es[0], [COMMA] + EntriesText(es[1..], rest));
      EntryTail(es[0], [COMMA] + EntriesText(es[1..], []));
      assert [COMMA] + (EntriesText(es[1..], []) + rest) == [COMMA] + EntriesText(es[1..], []) + rest;
      assert EntryText(es[0], []) + ([COMMA] + EntriesText(es[1..], []) + rest)
          == EntryText(es[0], []) + ([COMMA] + EntriesText(es[1..], [])) + rest;
    }
  }

  lemma BodyTail(d: Document, rest: bytes)
    ensures BodyText(d, rest) == BodyText(d, []) + rest
  {
    if d.entries != [] {
      EntriesTail(d.entries, [CLOSE] + rest);
      EntriesTail(d.entries, [CLOSE] + []);
      assert EntriesText(d.entries, []) + ([CLOSE] + rest) == EntriesText(d.entries, []) + ([CLOSE] + []) + rest;
    } else {
      assert d.blank + ([CLOSE] + rest) == d.blank + ([CLOSE] + []) + rest;
    }
  }

  lemma DocumentEnds(d: Document, tail: bytes)
    requires d.w0 == []
    ensures var t := DocumentText(d, []);
            DocumentText(d, tail) == t + tail && t != [] && t[0] == OPEN && t[|t| - 1] == CLOSE
  {
    hide BodyText, PreambleText;
    var x := BodyText(d, []) + d.w4 + [CLOSE];
    BodyTail(d, d.w4 + ([CLOSE] + tail));
    BodyTail(d, d.w4 + ([CLOSE] + []));
    assert BodyText(d, []) + (d.w4 + ([CLOSE] + tail)) == x + tail;
    assert BodyText(d, []) + (d.w4 + ([CLOSE] + [])) == x;
    PreambleTail(d, x, tail);
    assert x[|x| - 1] == CLOSE;
  }

  /**
   Any document comes back as its index, after any byte-order marks and white space, with any blanks
   between tokens, and with anything at all after its last brace.
   */
  lemma StatusListRoundTrip(d: Document, marks: nat, lead: bytes, tail: bytes)
    requires IsDocument(d) && d.w0 == [] && AllTrimmed(lead)
    ensures ParseStatusList(Marks(marks) + (lead + (DocumentText(d, []) + tail))) == Some(Index(d.entries))
  {
    hide DocumentText, ParseDocument, IsDocument, Index;
    var t := DocumentText(d, []);
    DocumentEnds(d, tail);
    DocumentEnds(d, TrimEnd(tail));
    DropMarksText(marks, lead + (t + tail));
    TrimStartText(lead, t + tail);
    TrimEndText(t, tail);
    DocumentParses(d, TrimEnd(tail));
  }

  /** And nothing else is accepted: every accepted text is, once trimmed, a document and a remainder. */
  lemma StatusListSound(json: bytes)
    requires ParseStatusList(json).Some?
    ensures exists d, rest :: IsDocument(d) && Trim(json) == DocumentText(d, rest)
              && ParseStatusList(json) == Some(Index(d.entries))
  {
    hide ParseDocument, IsDocument, DocumentText, Trim, Index;
    var (d, rest) := ParseDocument(Trim(json)).value;
    DocumentSound(Trim(json));
  }

  /** White space between tokens is space, line feed, carriage return and tab. */
  lemma WhiteSpaceOctets(b: byte)
    ensures IsWs(b) <==> b in {9, 10, 13, 32}
  {
  }

  /** What is trimmed around the text is tab to carriage return, and space. */
  lemma TrimmedOctets(b: byte)
    ensures IsTrimmed(b) <==> b in {9, 10, 11, 12, 13, 32}
  {
  }

  const SAMPLE: bytes :=
    Ascii("{\"entries\":{") + Ascii("\"0B\":{")
    + Ascii("\"status\":\"REVOKED\"") + Ascii(",\"reason\":\"X\"") + Ascii("}}}")

  const SAMPLE_OBJECT: Object :=
    Object([], [Member([], Ascii("status"), [], [], Ascii("REVOKED"), []),
                Member([], Ascii("reason"), [], [], Ascii("X"), [])])

  const SAMPLE_DOCUMENT: Document :=
    Document([], [], [], [], [], [Entry([], Ascii("0B"), [], [], SAMPLE_OBJECT, [])], [])

  lemma SampleIsDocument()
    ensures IsDocument(SAMPLE_DOCUMENT)
  {
    hide IsBody;
    PlainBody(Ascii("status"));
    PlainBody(Ascii("reason"));
    PlainBody(Ascii("REVOKED"));
    PlainBody(Ascii("X"));
    PlainBody(Ascii("0B"));
  }

  lemma SampleIndex()
    ensures Index(SAMPLE_DOCUMENT.entries) == map[Ascii("0b") := StatusEntry(Ascii("REVOKED"), Ascii("X"))]
  {
    var es := SAMPLE_DOCUMENT.entries;
    var ms := SAMPLE_OBJECT.members;
    assert es[..0] == [] && ms[..1] == [ms[0]] && ms[..1][..0] == [];
    assert |STATUS| == 6 && |REASON| == 6 && STATUS[0] == 115 && REASON[0] == 114;
    assert Lower(Ascii("0B")) == Ascii("0b");
    assert Status(SAMPLE_OBJECT) == StatusEntry(Ascii("REVOKED"), Ascii("X"));
  }

  lemma SampleStatus(rest: bytes)
    ensures MemberText(SAMPLE_OBJECT.members[0], rest) == Ascii("\"status\":\"REVOKED\"") + rest
  {
    var m := SAMPLE_OBJECT.members[0];
    assert [] + (Quoted(m.key) + ([] + ([COLON] + ([] + (Quoted(m.val) + ([] + rest))))))
        == (Quoted(m.key) + [COLON] + Quoted(m.val)) + rest;
    assert Quoted(m.key) + [COLON] + Quoted(m.val) == Ascii("\"status\":\"REVOKED\"");
  }

  lemma SampleReason(rest: bytes)
    ensures [COMMA] + MemberText(SAMPLE_OBJECT.members[1], rest) == Ascii(",\"reason\":\"X\"") + rest
  {
    var m := SAMPLE_OBJECT.members[1];
    assert [] + (Quoted(m.key) + ([] + ([COLON] + ([] + (Quoted(m.val) + ([] + rest))))))
        == (Quoted(m.key) + [COLON] + Quoted(m.val)) + rest;
    assert [COMMA] + ((Quoted(m.key) + [COLON] + Quoted(m.val)) + rest)
        == ([COMMA] + Quoted(m.key) + [COLON] + Quoted(m.val)) + rest;
    assert [COMMA] + Quoted(m.key) + [COLON] + Quoted(m.val) == Ascii(",\"reason\":\"X\"");
  }

  lemma TwoMembers(a: Member, b: Member, rest: bytes)
    ensures MembersText([a, b], rest) == MemberText(a, [COMMA] + MemberText(b, rest))
  {
    hide MemberText;
    assert [a, b][1..] == [b];
    assert MembersText([b], rest) == MemberText(b, rest);
  }

  lemma SampleObjectText(rest: bytes)
    ensures ObjectText(SAMPLE_OBJECT, rest)
         == [OPEN] + (Ascii("\"status\":\"REVOKED\"") + (Ascii(",\"reason\":\"X\"") + ([CLOSE] + rest)))
  {
    hide MemberText, MembersText, Ascii;
    var ms := SAMPLE_OBJECT.members;
    assert ms == [ms[0], ms[1]];
    TwoMembers(ms[0], ms[1], [CLOSE] + rest);
    SampleReason([CLOSE] + rest);
    SampleStatus([COMMA] + MemberText(ms[1], [CLOSE] + rest));
  }

  lemma PlainEntry(serial: bytes, o: Object, rest: bytes)
    ensures EntryText(Entry([], serial, [], [], o, []), rest) == (Quoted(serial) + [COLON]) + ObjectText(o, rest)
  {
    hide ObjectText, Quoted;
    assert [] + rest == rest;
    var x := ObjectText(o, rest);
    assert [] + (Quoted(serial) + ([] + ([COLON] + ([] + x)))) == (Quoted(serial) + [COLON]) + x;
  }

  lemma PlainDocument(e: Entry)
    ensures DocumentText(Document([], [], [], [], [], [e], []), [])
         == ([OPEN] + Quoted(ENTRIES) + [COLON] + [OPEN]) + EntryText(e, [CLOSE] + ([CLOSE] + []))
  {
    hide EntryText, Quoted;
    var d := Document([], [], [], [], [], [e], []);
    assert [] + ([CLOSE] + []) == [CLOSE] + [];
    var x := EntryText(e, [CLOSE] + ([CLOSE] + []));
    assert BodyText(d, [] + ([CLOSE] + [])) == x;
    assert [] + ([OPEN] + ([] + (Quoted(ENTRIES) + ([] + ([COLON] + ([] + ([OPEN] + x)))))))
        == ([OPEN] + Quoted(ENTRIES) + [COLON] + [OPEN]) + x;
  }

  lemma Regroup(a: bytes, b: bytes, o: bytes, c: bytes, d: bytes, e: bytes)
    ensures a + (b + (o + (c + (d + e)))) == a + (b + o) + c + d + e
  {
  }

  lemma SamplePunctuation()
    ensures [OPEN] + Quoted(ENTRIES) + [COLON] + [OPEN] == Ascii("{\"entries\":{")
    ensures (Quoted(Ascii("0B")) + [COLON]) + [OPEN] == Ascii("\"0B\":{")
    ensures [CLOSE] + ([CLOSE] + ([CLOSE] + [])) == Ascii("}}}")
  {
  }

  lemma SampleText()
    ensures DocumentText(SAMPLE_DOCUMENT, []) == SAMPLE
  {
    hide ObjectText, DocumentText, EntryText, Ascii, Quoted;
    var two := [CLOSE] + ([CLOSE] + []);
    SampleObjectText(two);
    PlainEntry(Ascii("0B"), SAMPLE_OBJECT, two);
    PlainDocument(SAMPLE_DOCUMENT.entries[0]);
    SamplePunctuation();
    Regroup(Ascii("{\"entries\":{"), Quoted(Ascii("0B")) + [COLON], [OPEN],
            Ascii("\"status\":\"REVOKED\""), Ascii(",\"reason\":\"X\""), [CLOSE] + two);
  }

  /** This text lists one serial, under its lower-case form, with its status and its reason. */
  lemma SampleParses()
    ensures ParseStatusList(SAMPLE) == Some(map[Ascii("0b") := StatusEntry(Ascii("REVOKED"), Ascii("X"))])
  {
    hide ParseStatusList, Index, DocumentText, IsDocument;
    SampleText();
    SampleIsDocument();
    SampleIndex();
    assert Marks(0) + ([] + (DocumentText(SAMPLE_DOCUMENT, []) + [])) == SAMPLE;
    StatusListRoundTrip(SAMPLE_DOCUMENT, 0, [], []);
  }
}
