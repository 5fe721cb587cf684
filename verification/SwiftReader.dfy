/**
 The streaming CBOR cursor of the iOS app. Each reading operation is a function from a position in
 the input to a value and the next position; `CborReader` is the cursor whose mutating methods
 compute them.
 */
module SwiftReader {
  import opened Bytes
  import Cbor

  /** Largest `Int`: converting a larger `UInt64`, or overflowing an addition, stops the program. */
  const INT_MAX: nat := 0x7FFF_FFFF_FFFF_FFFF

  datatype Outcome<+T> = Ok(value: T) | Throws | Traps {
    predicate IsFailure() {
      !Ok?
    }

    function PropagateFailure<U>(): Outcome<U>
      requires !Ok?
    {
      if Throws? then Throws else Traps
    }

    function Extract(): T
      requires Ok?
    {
      value
    }
  }

  function ByteAt(s: bytes, pos: nat): (r: Outcome<(byte, nat)>)
    ensures r.Ok? ==> pos < |s| && r.value.1 == pos + 1
  {
    if pos < |s| then Ok((s[pos], pos + 1)) else Throws
  }

  /** `readLength`: the argument that `info` announces. */
  function LengthAt(s: bytes, pos: nat, info: nat): (r: Outcome<(nat, nat)>)
    ensures r.Ok? ==> r.value.1 >= pos
  {
    if info < 24 then Ok((info, pos))
    else if info > 27 then Throws
    else
      var n := Cbor.ArgumentOctets(info);
      if pos + n > |s| then Throws else Ok((BigEndian(s[pos..pos + n]), pos + n))
  }

  function AsInt(v: nat): Outcome<nat> {
    if v <= INT_MAX then Ok(v) else Traps
  }

  /** `readBytes` (major type 2) and `readText` (major type 3), whose text is kept as its octets. */
  function StringAt(s: bytes, pos: nat, major: nat): Outcome<(bytes, nat)> {
    var (h, p) :- ByteAt(s, pos);
    if h / 32 != major then Throws
    else
      var (v, q) :- LengthAt(s, p, h % 32);
      var len :- AsInt(v);
      if q + len > INT_MAX then Traps
      else if q + len > |s| then Throws
      else Ok((s[q..q + len], q + len))
  }

  function IntAt(s: bytes, pos: nat): Outcome<(int, nat)> {
    var (h, p) :- ByteAt(s, pos);
    var (v, q) :- LengthAt(s, p, h % 32);
    var n :- AsInt(v);
    if h / 32 == 0 then Ok((n, q))
    else if h / 32 == 1 then Ok((-1 - n, q))
    else Throws
  }

  function MapHeaderAt(s: bytes, pos: nat): (r: Outcome<(nat, nat)>)
    ensures r.Ok? ==> r.value.0 <= INT_MAX
  {
    var (h, p) :- ByteAt(s, pos);
    if h / 32 != 5 then Throws
    else
      var (v, q) :- LengthAt(s, p, h % 32);
      var n :- AsInt(v);
      Ok((n, q))
  }

  /** Octets from `pos` to the end of the input; none once the cursor has run past it. */
  function Left(s: bytes, pos: nat): nat {
    if pos < |s| then |s| - pos else 0
  }

  /** `skipValue`: where the next value starts. A string is stepped over without a bounds check. */
  function SkipAt(s: bytes, pos: nat): (r: Outcome<nat>)
    ensures r.Ok? ==> r.value > pos
    decreases Left(s, pos), 0, 0
  {
    var (h, p) :- ByteAt(s, pos);
    var major := h / 32;
    if major > 5 then Throws
    else
      var (v, q) :- LengthAt(s, p, h % 32);
      if major < 2 then Ok(q)
      else
        var n :- AsInt(v);
        if major < 4 then if q + n > INT_MAX then Traps else Ok(q + n)
        else SkipsAt(s, q, if major == 4 then n else 2 * n)
  }

  /** `n` values skipped in turn. */
  function SkipsAt(s: bytes, pos: nat, n: nat): (r: Outcome<nat>)
    ensures r.Ok? ==> r.value >= pos
    decreases Left(s, pos), 1, n
  {
    if n == 0 then Ok(pos)
    else
      var p :- SkipAt(s, pos);
      SkipsAt(s, p, n - 1)
  }

  class CborReader {
    const data: bytes
    var pos: nat

    constructor (data: bytes)
      ensures this.data == data && pos == 0
    {
      this.data := data;
      pos := 0;
    }

    method ReadByte() returns (r: Outcome<byte>)
      modifies this
      ensures match ByteAt(data, old(pos))
              case Ok((b, p)) => r == Ok(b) && pos == p
              case Throws => r == Throws
              case Traps => r == Traps
    {
      if pos >= |data| {
        return Throws;
      }
      r := Ok(data[pos]);
      pos := pos + 1;
    }

    method ReadLength(info: nat) returns (r: Outcome<nat>)
      modifies this
      ensures match LengthAt(data, old(pos), info)
              case Ok((v, p)) => r == Ok(v) && pos == p
              case Throws => r == Throws
              case Traps => r == Traps
    {
      if info < 24 {
        return Ok(info);
      }
      if info > 27 {
        return Throws;
      }
      // One loop stands for the unrolled reads of one and two octets as well.
      var n := Cbor.ArgumentOctets(info);
      var v: nat := 0;
      ghost var start := pos;
      for i := 0 to n
        invariant pos == start + i
        invariant i > 0 ==> pos <= |data|
        invariant i == 0 ==> v == 0
        invariant i > 0 ==> v == BigEndian(data[start..pos])
      {
        var b := ReadByte();
        if b.Throws? {
          return Throws;
        }
        assert data[start..pos] == data[start..pos - 1] + [b.value];
        BigEndianSnoc(data[start..pos - 1], b.value);
        assert start == pos - 1 ==> data[start..pos - 1] == [];
        v := v * 256 + b.value;
      }
      return Ok(v);
    }

    method ReadString(major: nat) returns (r: Outcome<bytes>)
      modifies this
      ensures match StringAt(data, old(pos), major)
              case Ok((b, p)) => r == Ok(b) && pos == p
              case Throws => r == Throws
              case Traps => r == Traps
    {
      var h :- ReadByte();
      if h / 32 != major {
        return Throws;
      }
      var v :- ReadLength(h % 32);
      var len :- AsInt(v);
      if pos + len > INT_MAX {
        return Traps;
      }
      if pos + len > |data| {
        return Throws;
      }
      r := Ok(data[pos..pos + len]);
      pos := pos + len;
    }

    method ReadInt() returns (r: Outcome<int>)
      modifies this
      ensures match IntAt(data, old(pos))
              case Ok((v, p)) => r == Ok(v) && pos == p
              case Throws => r == Throws
              case Traps => r == Traps
    {
      var h :- ReadByte();
      var v :- ReadLength(h % 32);
      var n :- AsInt(v);
      match h / 32
      case 0 => return Ok(n);
      case 1 => return Ok(-1 - n);
      case _ => return Throws;
    }

    method ReadMapHeader() returns (r: Outcome<nat>)
      modifies this
      ensures match MapHeaderAt(data, old(pos))
              case Ok((n, p)) => r == Ok(n) && pos == p
              case Throws => r == Throws
              case Traps => r == Traps
    {
      var h :- ReadByte();
      if h / 32 != 5 {
        return Throws;
      }
      var v :- ReadLength(h % 32);
      var n :- AsInt(v);
      return Ok(n);
    }

    /**
     `skipValue`, with the number of times it is entered. A declared count never makes it work more
     than the input allows: each entry that returns has read an initial octet of its own.
     */
    method SkipValue() returns (r: Outcome<()>, ghost entries: nat)
      modifies this
      ensures match SkipAt(data, old(pos))
              case Ok(p) => r == Ok(()) && pos == p
              case Throws => r == Throws
              case Traps => r == Traps
      ensures r.Ok? ==> entries + Left(data, pos) <= Left(data, old(pos))
      ensures entries <= Left(data, old(pos)) + 1
      decreases Left(data, pos)
    {
      hide LengthAt;
      entries := 1;
      var hb := ReadByte();
      if hb.Throws? {
        return Throws, entries;
      }
      var h := hb.value;
      var major := h / 32;
      if major > 5 {
        return Throws, entries;
      }
      var v := ReadLength(h % 32);
      if !v.Ok? {
        return v.PropagateFailure(), entries;
      }
      if major < 2 {
        return Ok(()), entries;
      }
      var n := AsInt(v.value);
      if n.Traps? {
        return Traps, entries;
      }
      if major < 4 {
        if pos + n.value > INT_MAX {
          return Traps, entries;
        }
        pos := pos + n.value;
        return Ok(()), entries;
      }
      ghost var start := pos;
      var i := 0;
      while i < n.value
        invariant i <= n.value
        invariant pos >= start > old(pos)
        invariant SkipsAt(data, start, if major == 4 then n.value else 2 * n.value)
               == SkipsAt(data, pos, if major == 4 then n.value - i else 2 * (n.value - i))
        invariant entries + Left(data, pos) <= Left(data, old(pos))
        decreases n.value - i
      {
        var once, more := SkipValue();
        entries := entries + more;
        if !once.Ok? {
          return once, entries;
        }
        if major == 5 {
          once, more := SkipValue();
          entries := entries + more;
          if !once.Ok? {
            return once, entries;
          }
        }
        i := i + 1;
      }
      return Ok(()), entries;
    }
  }
}
