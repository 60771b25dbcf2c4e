/** The length-delimited string codec of main.go: `ToLen` writes a string as its byte length
    in varint form followed by its bytes, and `parseLen` reads a varint length and then that
    many bytes, appending each to a `strings.Builder` as a rune. */
module LenDelim {
  import opened Wire
  import opened VarInt

  /** The bytes ToLen returns for an ASCII string. */
  function LenBytes(s: seq<byte>): seq<byte>
  {
    VarIntBytes(|s|) + s
  }

  /** ToLen: fills a buffer of exactly the right size with the varint of the string's
      length and then the string's characters; a payload that is not a string is a type
      mismatch. */
  method ToLen(v: Value) returns (r: Result<seq<byte>>)
    requires v.StrVal? ==> IsAscii(v.s)
    ensures r.Ok? <==> v.StrVal?
    ensures r.Err? ==> r.error == MismatchedType
    ensures r.Ok? ==> r.value == LenBytes(v.s)
  {
    if !v.StrVal? {
      return Err(MismatchedType);
    }
    var s := v.s;
    var recordLength := |s|;
    var length := ToVarInts(recordLength);
    var buf := new byte[recordLength + |length|];
    var index := 0;
    while index < |length|
      invariant 0 <= index <= |length|
      invariant buf[..index] == length[..index]
    {
      buf[index] := length[index];
      index := index + 1;
    }
    var k := 0;
    while k < |s|
      invariant 0 <= k <= |s| && index == |length| + k
      invariant buf[..index] == length + s[..k]
    {
      buf[index] := s[k];            // byte(c): each rune of an ASCII string is one byte
      index := index + 1;
      k := k + 1;
    }
    assert buf[..] == buf[..index];
    assert s[..k] == s;
    r := Ok(buf[..]);
  }

  /** A length-delimited run is the varint of the length, which denotes the length when it
      is not zero, followed by exactly the string's bytes. */
  lemma LenBytesSplit(s: seq<byte>)
    ensures var bs := LenBytes(s);
      |bs| >= |s| && bs[|bs| - |s|..] == s &&
      (s != [] ==> Base128(bs[..|bs| - |s|]) == |s|)
  {
    var bs := LenBytes(s);
    assert bs[..|bs| - |s|] == VarIntBytes(|s|);
    assert bs[|bs| - |s|..] == s;
    if s != [] {
      VarIntBytesValue(|s|);
    }
  }

  /** The bytes `WriteRune(rune(b))` appends for one byte: the byte itself when it is ASCII,
      otherwise the two-byte UTF-8 form of the code point `b`. */
  function RuneBytes(b: byte): (r: seq<byte>)
    ensures b < 0x80 ==> r == [b]
    ensures b >= 0x80 ==> |r| == 2 && 0xC2 <= r[0] <= 0xC3 && 0x80 <= r[1] < 0xC0
    ensures b >= 0x80 ==> (r[0] - 0xC0) * 0x40 + (r[1] - 0x80) == b
  {
    if b < 0x80 then [b] else [0xC0 + b / 0x40, 0x80 + b % 0x40]
  }

  /** The string a `strings.Builder` holds after WriteRune of each byte in turn. */
  function Utf8OfBytes(bs: seq<byte>): seq<byte>
  {
    if bs == [] then [] else Utf8OfBytes(bs[..|bs| - 1]) + RuneBytes(bs[|bs| - 1])
  }

  /** The builder holds an ASCII run unchanged, and never anything shorter than the bytes. */
  lemma {:induction false} Utf8OfAscii(bs: seq<byte>)
    ensures IsAscii(bs) ==> Utf8OfBytes(bs) == bs
    ensures |Utf8OfBytes(bs)| >= |bs|
  {
    if bs != [] {
      var init := bs[..|bs| - 1];
      Utf8OfAscii(init);
      if IsAscii(bs) {
        assert IsAscii(init);
        assert bs == init + [bs[|bs| - 1]];
      }
    }
  }

  /** What `parseLen(buffer, start)` returns, or the panic it raises: a varint length L,
      then exactly the next L bytes; too few bytes left is an index out of range. */
  function LenAt(buffer: seq<byte>, start: nat): (r: Result<(seq<byte>, nat)>)
    ensures r.Ok? ==> start < r.value.1 <= |buffer|
    ensures r.Err? ==> r.error == IndexOutOfRange
    ensures VarIntAt(buffer, start).Err? ==> r.Err?
    ensures VarIntAt(buffer, start).Ok? ==>
      (r.Ok? <==> VarIntAt(buffer, start).value.1 + VarIntAt(buffer, start).value.0 <= |buffer|)
  {
    match VarIntAt(buffer, start)
    case Err(e) => Err(e)
    case Ok((len, next)) =>
      if next + len <= |buffer| then Ok((Utf8OfBytes(buffer[next..next + len]), next + len))
      else Err(IndexOutOfRange)
  }

  /** One more byte read appends its rune to the builder. */
  lemma Utf8Step(buffer: seq<byte>, from: nat, to: nat)
    requires from <= to < |buffer|
    ensures Utf8OfBytes(buffer[from..to + 1]) == Utf8OfBytes(buffer[from..to]) + RuneBytes(buffer[to])
  {
    assert buffer[from..to + 1][..to - from] == buffer[from..to];
  }

  /** parseLen: decodes the length, then appends that many bytes to the builder one by one. */
  method ParseLen(buffer: seq<byte>, start: nat) returns (r: Result<(seq<byte>, nat)>)
    ensures r == LenAt(buffer, start)
    ensures r.Ok? ==> start < r.value.1 <= |buffer|
  {
    var lengthResult := ParseVarInts(buffer, start);
    if lengthResult.Err? {
      return Err(lengthResult.error);
    }
    var (recordLength, nextIndex) := lengthResult.value;
    ghost var from := nextIndex;
    var sb: seq<byte> := [];
    var i := 0;
    while i < recordLength
      invariant 0 <= i <= recordLength
      invariant nextIndex == from + i <= |buffer|
      invariant sb == Utf8OfBytes(buffer[from..nextIndex])
    {
      if nextIndex >= |buffer| {
        LenAtCases(buffer, start, recordLength, from);
        return Err(IndexOutOfRange); // buffer[next_index] panics
      }
      Utf8Step(buffer, from, nextIndex);
      sb := sb + RuneBytes(buffer[nextIndex]);
      nextIndex := nextIndex + 1;
      i := i + 1;
    }
    LenAtCases(buffer, start, recordLength, from);
    r := Ok((sb, nextIndex));
  }

  /** LenAt once the length varint has been read. */
  lemma LenAtCases(buffer: seq<byte>, start: nat, len: int, next: nat)
    requires VarIntAt(buffer, start) == Ok((len, next))
    ensures next + len > |buffer| ==> LenAt(buffer, start) == Err(IndexOutOfRange)
    ensures next + len <= |buffer| ==>
      LenAt(buffer, start) == Ok((Utf8OfBytes(buffer[next..next + len]), next + len))
  {
  }

  /** A string of 1 to 127 characters is written as its one-byte length and its bytes. */
  lemma LenBytesSmall(s: seq<byte>)
    requires 1 <= |s| < 0x80
    ensures LenBytes(s) == [|s|] + s
  {
    VarIntBytesSmall(|s|);
  }

  /** A string of 1 to 127 ASCII characters decodes back from any position. */
  lemma LenRoundTripSmall(pre: seq<byte>, s: seq<byte>, rest: seq<byte>)
    requires 1 <= |s| < 0x80 && IsAscii(s)
    ensures LenBytes(s) == [|s|] + s
    ensures LenAt(pre + LenBytes(s) + rest, |pre|) == Ok((s, |pre| + 1 + |s|))
  {
    VarIntRoundTripSmall(pre, |s|, s + rest);
    var buffer := pre + LenBytes(s) + rest;
    assert buffer == pre + VarIntBytes(|s|) + (s + rest);
    var n := |pre| + 1;
    assert VarIntAt(buffer, |pre|) == Ok((|s|, n));
    assert buffer[n..n + |s|] == s;
    Utf8OfAscii(s);
  }

  /** A one-byte length followed by that many ASCII bytes `s`, from `body` to `end`, reads
      as `s`. */
  lemma LenAtSingle(buffer: seq<byte>, start: nat, body: nat, end: nat, s: seq<byte>)
    requires body == start + 1 && end == body + |s| <= |buffer|
    requires buffer[start] == |s| < 0x80 && buffer[body..end] == s && IsAscii(s)
    ensures LenAt(buffer, start) == Ok((s, end))
  {
    VarIntAtSingle(buffer, start);
    Utf8OfAscii(s);
  }

  /** The empty string is written as nothing at all: its length 0 has no varint bytes. */
  lemma EmptyStringVanishes()
    ensures LenBytes([]) == []
  {
  }
}
