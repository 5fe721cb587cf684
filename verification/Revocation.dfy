/** `check_status`: the hexadecimal form of a certificate serial, and the lookup in the status list. */
module Revocation {
  import opened Bytes
  import opened StatusLists
  import StatusText

  /** The lower-case ASCII hexadecimal digit of `d`. */
  function Digit(d: nat): (c: byte)
    requires d < 16
  {
    if d < 10 then 48 + d else 87 + d
  }

  function HexOctets(s: bytes): (h: bytes)
    ensures |h| == 2 * |s|
  {
    if s == [] then [] else HexOctets(s[..|s| - 1]) + [Digit(s[|s| - 1] / 16), Digit(s[|s| - 1] % 16)]
  }

  function StripZeros(s: bytes): (t: bytes)
    ensures t == [] || t[0] != 0
  {
    if s != [] && s[0] == 0 then StripZeros(s[1..]) else s
  }

  /** Two digits for each octet from the first nonzero one, or the single digit 0. */
  function SerialHex(serial: bytes): bytes {
    if StripZeros(serial) == [] then [48] else HexOctets(StripZeros(serial))
  }

  method HexOfSerial(serial: bytes) returns (hex: bytes)
    ensures hex == SerialHex(serial)
  {
    hex := [];
    var leading := true;
    ghost var k := 0;
    assert serial[0..] == serial;
    for i := 0 to |serial|
      invariant 0 <= k <= i
      invariant leading ==> hex == [] && StripZeros(serial) == StripZeros(serial[i..])
      invariant !leading ==> k < i && StripZeros(serial) == serial[k..] && hex == HexOctets(serial[k..i])
    {
      var b := serial[i];
      assert serial[i..][1..] == serial[i + 1..];
      if leading {
        if b == 0 {
          continue;
        }
        leading, k := false, i;
        assert serial[i..i] == [];
      }
      assert serial[k..i + 1][..i - k] == serial[k..i];
      hex := hex + [Digit(b / 16), Digit(b % 16)];
    }
    assert serial[k..|serial|] == serial[k..];
    if hex == [] {
      hex := [48];
    }
  }

  /** Whether the serial is not listed; a listed one aborts verification whatever its status says. */
  method CheckStatus(serial: bytes, list: map<bytes, StatusEntry>) returns (ok: bool)
    ensures ok <==> SerialHex(serial) !in list
  {
    var hex := HexOfSerial(serial);
    return hex !in list;
  }

  lemma {:induction false} StripZerosValue(s: bytes)
    ensures BigEndian(StripZeros(s)) == BigEndian(s)
  {
    if s == [] || s[0] != 0 {
    } else {
      StripZerosValue(s[1..]);
      assert s == [s[0]] + s[1..];
      BigEndianCons(0, s[1..]);
    }
  }

  lemma DigitInjective(a: byte, b: byte)
    requires Digit(a / 16) == Digit(b / 16) && Digit(a % 16) == Digit(b % 16)
    ensures a == b
  {
    assert a == a / 16 * 16 + a % 16 && b == b / 16 * 16 + b % 16;
  }

  lemma {:induction false} HexInjective(a: bytes, b: bytes)
    requires HexOctets(a) == HexOctets(b)
    ensures a == b
  {
    hide Digit;
    assert |a| == |b|;
    if a == [] {
    } else {
      var n := |a| - 1;
      var h := HexOctets(a);
      assert HexOctets(a[..n]) == h[..2 * n] && HexOctets(b[..n]) == h[..2 * n];
      HexInjective(a[..n], b[..n]);
      assert h[2 * n] == Digit(a[n] / 16) && h[2 * n] == Digit(b[n] / 16);
      assert h[2 * n + 1] == Digit(a[n] % 16) && h[2 * n + 1] == Digit(b[n] % 16);
      DigitInjective(a[n], b[n]);
      assert a == a[..n] + [a[n]] && b == b[..n] + [b[n]];
    }
  }

  lemma AtLeastOnce(b: nat, p: nat)
    requires b > 0
    ensures b * p >= p
  {
  }

  /** A string without leading zero octets has the length its value needs. */
  lemma LeadingOctet(s: bytes)
    requires s != [] && s[0] != 0
    ensures Pow256(|s| - 1) <= BigEndian(s)
  {
    hide BigEndian, Pow256;
    assert s == [s[0]] + s[1..];
    BigEndianCons(s[0], s[1..]);
    AtLeastOnce(s[0], Pow256(|s| - 1));
  }

  lemma ShorterIsSmaller(a: bytes, b: bytes)
    requires |a| < |b| && b[0] != 0
    ensures BigEndian(a) < BigEndian(b)
  {
    BigEndianBound(a);
    LeadingOctet(b);
    Pow256Monotone(|a|, |b| - 1);
  }

  lemma StrippedUnique(a: bytes, b: bytes)
    requires a == [] || a[0] != 0
    requires b == [] || b[0] != 0
    requires BigEndian(a) == BigEndian(b)
    ensures a == b
  {
    hide BigEndian;
    if |a| < |b| {
      ShorterIsSmaller(a, b);
    } else if |b| < |a| {
      ShorterIsSmaller(b, a);
    } else {
      BigEndianInjective(a, b);
    }
  }

  /** The looked-up form decides the serial's value, and the value decides the form. */
  lemma SerialHexByValue(a: bytes, b: bytes)
    ensures SerialHex(a) == SerialHex(b) <==> BigEndian(a) == BigEndian(b)
  {
    hide BigEndian, StripZeros, HexOctets;
    var x, y := StripZeros(a), StripZeros(b);
    StripZerosValue(a);
    StripZerosValue(b);
    if BigEndian(a) == BigEndian(b) {
      StrippedUnique(x, y);
    }
    if SerialHex(a) == SerialHex(b) {
      assert |HexOctets(x)| % 2 == 0 && |HexOctets(y)| % 2 == 0;
      if x != [] {
        HexInjective(x, y);
      }
    }
  }

  /** Lower-case hexadecimal without leading-zero padding, as the status list documents its keys. */
  function UnpaddedHex(v: nat): (h: bytes)
    ensures |h| > 0
  {
    if v < 16 then [Digit(v)] else UnpaddedHex(v / 16) + [Digit(v % 16)]
  }

  lemma NibbleSplit(v: nat, b: byte)
    ensures (v * 256 + b) / 16 == v * 16 + b / 16 && (v * 256 + b) % 16 == b % 16
    ensures (v * 16 + b / 16) / 16 == v && (v * 16 + b / 16) % 16 == b / 16
  {
  }

  /** One more octet is two more digits. */
  lemma UnpaddedOctet(v: nat, b: byte)
    requires v > 0
    ensures UnpaddedHex(v * 256 + b) == UnpaddedHex(v) + [Digit(b / 16), Digit(b % 16)]
  {
    hide Digit;
    NibbleSplit(v, b);
    assert UnpaddedHex(v * 256 + b) == UnpaddedHex(v * 16 + b / 16) + [Digit(b % 16)];
    assert UnpaddedHex(v * 16 + b / 16) == UnpaddedHex(v) + [Digit(b / 16)];
  }

  lemma {:induction false} HexDigits(s: bytes)
    requires s != [] && s[0] != 0
    ensures HexOctets(s) == (if s[0] < 16 then [48] else []) + UnpaddedHex(BigEndian(s))
  {
    var n := |s| - 1;
    var b := s[n];
    if n == 0 {
      assert s[..0] == [];
      assert BigEndian(s) == b;
      assert HexOctets(s) == [Digit(b / 16), Digit(b % 16)];
      if b >= 16 {
        assert UnpaddedHex(b) == UnpaddedHex(b / 16) + [Digit(b % 16)];
      }
    } else {
      HexDigits(s[..n]);
      LeadingOctet(s[..n]);
      UnpaddedOctet(BigEndian(s[..n]), b);
    }
  }

  /**
   The looked-up form is the documented key exactly when the serial is zero or its first nonzero octet
   is at least 16; otherwise it carries a leading 0 that the documented key does not have.
   */
  lemma SerialHexUnpadded(serial: bytes)
    ensures SerialHex(serial) == UnpaddedHex(BigEndian(serial))
            <==> StripZeros(serial) == [] || StripZeros(serial)[0] >= 16
  {
    var s := StripZeros(serial);
    StripZerosValue(serial);
    if s == [] {
      assert UnpaddedHex(0) == [48];
    } else {
      HexDigits(s);
      if s[0] < 16 {
        assert |SerialHex(serial)| == 1 + |UnpaddedHex(BigEndian(serial))|;
      }
    }
  }

  /** The serial 10 is looked up as "0a", so a list that names it "a" does not stop it. */
  lemma PaddedSerialMissed()
    ensures SerialHex([10]) == Ascii("0a") && UnpaddedHex(10) == Ascii("a")
    ensures SerialHex([10]) !in map[UnpaddedHex(10) := StatusEntry([], [])]
  {
  }

  /** Digits are 0 to 9 and a to f. */
  lemma DigitOctets()
    ensures forall d: nat | d < 16 :: Digit(d) == Ascii("0123456789abcdef")[d]
  {
    assert Ascii("0123456789abcdef")
        == [48, 49, 50, 51, 52, 53, 54, 55, 56, 57, 97, 98, 99, 100, 101, 102];
  }

  lemma {:induction false} HexAlphabet(s: bytes)
    ensures forall i | 0 <= i < |HexOctets(s)| :: 48 <= HexOctets(s)[i] <= 57 || 97 <= HexOctets(s)[i] <= 102
  {
    if s == [] {
    } else {
      HexAlphabet(s[..|s| - 1]);
    }
  }

  /** Octet by octet: the two digits of each octet from the first nonzero one. */
  lemma {:induction false} HexOctetsAt(s: bytes, i: nat)
    requires i < |s|
    ensures HexOctets(s)[2 * i] == Ascii("0123456789abcdef")[s[i] / 16]
    ensures HexOctets(s)[2 * i + 1] == Ascii("0123456789abcdef")[s[i] % 16]
  {
    hide Digit, Ascii;
    DigitOctets();
    if i == |s| - 1 {
    } else {
      HexOctetsAt(s[..|s| - 1], i);
    }
  }

  lemma SerialAlphabet(serial: bytes)
    ensures forall i | 0 <= i < |SerialHex(serial)| ::
              48 <= SerialHex(serial)[i] <= 57 || 97 <= SerialHex(serial)[i] <= 102
  {
    HexAlphabet(StripZeros(serial));
  }

  /**
   Against a parsed list: a serial passes exactly when no entry spells its form, in upper or lower case. What
   the entry's status says does not matter.
   */
  lemma ListedExactly(es: seq<StatusText.Entry>, serial: bytes)
    ensures SerialHex(serial) !in Index(es) <==> forall i | 0 <= i < |es| :: !Spells(es[i].serial, SerialHex(serial))
  {
    hide Index, SerialHex, Lower, Spells;
    SerialAlphabet(serial);
    IndexKeys(es, SerialHex(serial));
    forall i | 0 <= i < |es|
      ensures Lower(es[i].serial) == SerialHex(serial) <==> Spells(es[i].serial, SerialHex(serial))
    {
      LowerSpells(es[i].serial, SerialHex(serial));
    }
  }

  /** So an entry that names the form as it is looked up, or in capitals, stops the serial. */
  lemma NamedIsStopped(es: seq<StatusText.Entry>, i: nat, serial: bytes, capitals: bytes)
    requires i < |es| && |capitals| == |SerialHex(serial)|
    requires forall j | 0 <= j < |capitals| ::
               var c := SerialHex(serial)[j];
               capitals[j] == if 97 <= c <= 102 then c - 32 else c
    ensures es[i].serial == SerialHex(serial) || es[i].serial == capitals ==> SerialHex(serial) in Index(es)
  {
    hide Index, SerialHex;
    ListedExactly(es, serial);
  }

  // The buffer hashed to commit to a chain: each certificate after its length as a 32-bit word.

  function LengthWord(n: nat): bytes {
    ToBigEndian(n % 0x1_0000_0000, 4)
  }

  function ChainBuffer(chain: seq<bytes>): bytes {
    if chain == [] then []
    else ChainBuffer(chain[..|chain| - 1]) + LengthWord(|chain[|chain| - 1]|) + chain[|chain| - 1]
  }

  /** `canonical_chain_hash_input`. */
  method CanonicalChainHashInput(chain: seq<bytes>) returns (buf: bytes)
    ensures buf == ChainBuffer(chain)
  {
    buf := [];
    for i := 0 to |chain|
      invariant buf == ChainBuffer(chain[..i])
    {
      assert chain[..i + 1][..i] == chain[..i];
      buf := buf + ToBigEndian(|chain[i]| % 0x1_0000_0000, 4);
      buf := buf + chain[i];
    }
    assert chain[..|chain|] == chain;
  }

  /** Read length-prefixed certificates back from the front. */
  function SplitBuffer(buf: bytes): Option<seq<bytes>>
    decreases |buf|
  {
    if buf == [] then Some([])
    else if |buf| < 4 then None
    else
      var n := BigEndian(buf[..4]);
      if 4 + n > |buf| then None
      else
        var rest :- SplitBuffer(buf[4 + n..]);
        Some([buf[4..4 + n]] + rest)
  }

  lemma {:induction false} ChainBufferCons(c: bytes, chain: seq<bytes>)
    ensures ChainBuffer([c] + chain) == LengthWord(|c|) + c + ChainBuffer(chain)
  {
    hide LengthWord;
    if chain == [] {
      assert ([c] + chain)[..0] == [];
      assert [c] + chain == [c];
      assert ChainBuffer([]) == [];
    } else {
      var n := |chain| - 1;
      ChainBufferCons(c, chain[..n]);
      assert ([c] + chain)[..|chain|] == [c] + chain[..n];
      assert ([c] + chain)[|chain|] == chain[n];
    }
  }

  lemma LengthWordValue(n: nat)
    requires n < 0x1_0000_0000
    ensures |LengthWord(n)| == 4 && BigEndian(LengthWord(n)) == n
  {
    hide BigEndian, ToBigEndian, Pow256;
    Pow256Values();
    assert n % 0x1_0000_0000 == n;
    ToBigEndianValue(n, 4);
  }

  lemma SplitFirst(c: bytes, tail: bytes)
    requires |c| < 0x1_0000_0000 && SplitBuffer(tail).Some?
    ensures SplitBuffer(LengthWord(|c|) + c + tail) == Some([c] + SplitBuffer(tail).value)
  {
    hide BigEndian, ToBigEndian, LengthWord;
    var w := LengthWord(|c|);
    var buf := w + c + tail;
    LengthWordValue(|c|);
    assert buf[..4] == w;
    assert buf[4..4 + |c|] == c;
    assert buf[4 + |c|..] == tail;
  }

  /** Chains of certificates shorter than 2^32 octets are recovered from their buffer. */
  lemma {:induction false} SplitChainBuffer(chain: seq<bytes>)
    requires forall c | c in chain :: |c| < 0x1_0000_0000
    ensures SplitBuffer(ChainBuffer(chain)) == Some(chain)
  {
    if chain == [] {
    } else {
      var c, rest := chain[0], chain[1..];
      assert chain == [c] + rest;
      ChainBufferCons(c, rest);
      SplitChainBuffer(rest);
      SplitFirst(c, ChainBuffer(rest));
    }
  }

  /** So such chains have distinct buffers: equal hashes of different chains are a hash collision. */
  lemma ChainBufferInjective(a: seq<bytes>, b: seq<bytes>)
    requires forall c | c in a :: |c| < 0x1_0000_0000
    requires forall c | c in b :: |c| < 0x1_0000_0000
    requires ChainBuffer(a) == ChainBuffer(b)
    ensures a == b
  {
    SplitChainBuffer(a);
    SplitChainBuffer(b);
  }

  function Empties(n: nat): (e: seq<bytes>)
    ensures |e| == n
  {
    seq(n, i => [])
  }

  lemma ZeroWord()
    ensures LengthWord(0) == Zeros(4) && LengthWord(0x1_0000_0000) == Zeros(4)
  {
    assert ToBigEndian(0, 1) == [0];
    assert ToBigEndian(0, 2) == [0, 0];
    assert ToBigEndian(0, 3) == [0, 0, 0];
  }

  lemma {:induction false} EmptyCertificates(n: nat)
    ensures ChainBuffer(Empties(n)) == Zeros(4 * n)
  {
    if n == 0 {
    } else {
      var chain := Empties(n);
      EmptyCertificates(n - 1);
      ZeroWord();
      assert chain[..n - 1] == Empties(n - 1);
      assert Zeros(4 * (n - 1)) + Zeros(4) + [] == Zeros(4 * n);
    }
  }

  /** The length word is cut to 32 bits: a certificate of 2^32 zero octets reads like many empty ones. */
  lemma LongCertificateCollides()
    ensures var long := [Zeros(0x1_0000_0000)];
            var empty := Empties(0x4000_0001);
            long != empty && ChainBuffer(long) == ChainBuffer(empty)
  {
    var z := Zeros(0x1_0000_0000);
    EmptyCertificates(0x4000_0001);
    ZeroWord();
    ChainBufferCons(z, []);
    assert [z] + [] == [z];
    assert |[z]| == 1;
    assert LengthWord(|z|) + z + ChainBuffer([]) == Zeros(4 * 0x4000_0001);
  }
}
