/** What Read makes of what Write produces. On messages whose field numbers lie in 1..15 and
    whose values are ints in 1..127 or ASCII strings of 1 to 127 characters, every tag and
    every length is a single byte, and reading the written bytes into any message puts back
    exactly the written fields. Outside that domain the codec loses information; the
    vectors module shows where. */
module RoundTrip {
  import opened Wire
  import opened VarInt
  import opened LenDelim
  import opened Writer
  import opened Reader

  /** A field number and value whose framing Read decodes back. */
  predicate SmallField(k: int64, v: Value) {
    1 <= k < 0x10 &&
    match v
    case IntVal(i) => 1 <= i < 0x80
    case StrVal(s) => 1 <= |s| < 0x80 && IsAscii(s)
    case Unsupported => false
  }

  predicate InRoundTripDomain(m: map<int64, Value>) {
    forall k :: k in m ==> SmallField(k, m[k])
  }

  /** The fields Read has after putting the values of `keys`, in order, on top of `fields`. */
  function PutAll(fields: map<int64, Value>, keys: seq<int64>, m: map<int64, Value>): (r: map<int64, Value>)
    requires forall k :: k in keys ==> k in m
    ensures forall k :: k in r <==> k in fields || k in keys
    ensures forall k :: k in r ==> r[k] == if k in keys then m[k] else fields[k]
    decreases |keys|
  {
    if keys == [] then fields
    else PutAll(fields[keys[0] := m[keys[0]]], keys[1..], m)
  }

  /** Putting every field of `m` overrides the earlier fields with all of `m`. */
  lemma PutAllUnion(fields: map<int64, Value>, keys: seq<int64>, m: map<int64, Value>)
    requires forall k :: k in keys <==> k in m
    ensures PutAll(fields, keys, m) == fields + m
  {
    var r := PutAll(fields, keys, m);
    assert r.Keys == (fields + m).Keys;
  }

  /** A small field's tag is the single byte `k * 8 + sel`. */
  lemma SmallTag(k: int64, sel: byte)
    requires 1 <= k < 0x10 && sel <= 1
    ensures TagBytes(k, sel) == [k * 8 + sel]
  {
    assert Shl3(k) == k * 8;
    VarIntBytesSmall(k * 8);
    assert OrLowBit(k * 8, sel) == k * 8 + sel;
  }

  /** The bytes of a small field: its tag byte and its value byte, or its tag byte, its
      length byte and its characters. */
  function SmallFieldBytes(k: int64, v: Value): seq<byte>
    requires SmallField(k, v)
  {
    match v
    case IntVal(i) => [k * 8] + [i]
    case StrVal(s) => [k * 8 + 1] + ([|s|] + s)
  }

  /** Write frames a small field as its tag byte, then its value byte or its length byte and
      its characters. */
  lemma SmallFieldIsBytes(k: int64, v: Value)
    requires SmallField(k, v)
    ensures FieldBytes(k, v) == SmallFieldBytes(k, v)
  {
    match v
    case IntVal(i) =>
      SmallTag(k, 0);
      VarIntBytesSmall(i);
      FieldBytesOf(k, v, [k * 8], [i]);
    case StrVal(s) =>
      SmallTag(k, 1);
      LenBytesSmall(s);
      FieldBytesOf(k, v, [k * 8 + 1], [|s|] + s);
  }

  /** The small fields `keys` of `m`, one after the other. */
  function SmallFields(keys: seq<int64>, m: map<int64, Value>): seq<byte>
    requires InRoundTripDomain(m) && forall k :: k in keys ==> k in m
  {
    if keys == [] then [] else SmallFieldBytes(keys[0], m[keys[0]]) + SmallFields(keys[1..], m)
  }

  /** On the round-trip domain, Write's framing of the fields is byte for byte the small one. */
  lemma {:induction false} FieldsAreSmall(keys: seq<int64>, m: map<int64, Value>)
    requires InRoundTripDomain(m) && forall k :: k in keys ==> k in m
    ensures Fields(keys, m) == SmallFields(keys, m)
  {
    if keys != [] {
      FieldsAreSmall(keys[1..], m);
      SmallFieldIsBytes(keys[0], m[keys[0]]);
    }
  }

  /** The bytes of a small field `k`, `v` as they lie at `pos`: the tag byte, then the value
      byte of an int or the length byte and the characters of a string. */
  predicate LaidOutAt(buffer: seq<byte>, pos: nat, k: int64, v: Value, len: nat)
    requires SmallField(k, v)
  {
    pos + len <= |buffer| &&
    match v
    case IntVal(i) =>
      len == 2 && buffer[pos] == k * 8 && buffer[pos + 1] == i
    case StrVal(s) =>
      len == 2 + |s| && buffer[pos] == k * 8 + 1 && buffer[pos + 1] == |s| &&
      buffer[pos + 2..pos + len] == s
  }

  /** A small field's bytes, found from `pos` to `end`, lie as LaidOutAt describes. */
  lemma SmallFieldLaidOut(buffer: seq<byte>, pos: nat, end: nat, k: int64, v: Value)
    requires SmallField(k, v)
    requires end == pos + |SmallFieldBytes(k, v)| <= |buffer|
    requires buffer[pos..end] == SmallFieldBytes(k, v)
    ensures end == pos + SmallFieldLength(v)
    ensures LaidOutAt(buffer, pos, k, v, SmallFieldLength(v))
  {
    match v
    case IntVal(i) => SmallIntLaidOut(buffer, pos, end, k, i);
    case StrVal(s) => SmallStringLaidOut(buffer, pos, end, k, s);
  }

  lemma SmallIntLaidOut(buffer: seq<byte>, pos: nat, end: nat, k: int64, i: int64)
    requires 1 <= k < 0x10 && 1 <= i < 0x80
    requires end == pos + 2 <= |buffer| && buffer[pos..end] == [k * 8] + [i]
    ensures LaidOutAt(buffer, pos, k, IntVal(i), 2)
  {
    assert buffer[pos] == buffer[pos..end][0];
    assert buffer[pos + 1] == buffer[pos..end][1];
  }

  lemma SmallStringLaidOut(buffer: seq<byte>, pos: nat, end: nat, k: int64, s: seq<byte>)
    requires 1 <= k < 0x10 && 1 <= |s| < 0x80 && IsAscii(s)
    requires end == pos + 2 + |s| <= |buffer| && buffer[pos..end] == [k * 8 + 1] + ([|s|] + s)
    ensures LaidOutAt(buffer, pos, k, StrVal(s), 2 + |s|)
  {
    var field := buffer[pos..end];
    assert buffer[pos] == field[0] && buffer[pos + 1] == field[1];
    assert field[2..] == s;
    assert buffer[pos + 2..end] == field[2..];
  }

  /** Read takes a small field that lies at `pos` as one put of that field. */
  lemma ReadSmallField(buffer: seq<byte>, pos: nat, k: int64, v: Value, len: nat, fields: map<int64, Value>)
    requires SmallField(k, v) && LaidOutAt(buffer, pos, k, v, len)
    ensures ReadFrom(buffer, pos, fields) == ReadFrom(buffer, pos + len, fields[k := v])
  {
    match v
    case IntVal(i) => ReadSmallInt(buffer, pos, k, i, len, fields);
    case StrVal(s) => ReadSmallString(buffer, pos, k, s, len, fields);
  }

  lemma ReadSmallInt(buffer: seq<byte>, pos: nat, k: int64, i: int64, len: nat, fields: map<int64, Value>)
    requires SmallField(k, IntVal(i)) && LaidOutAt(buffer, pos, k, IntVal(i), len)
    ensures ReadFrom(buffer, pos, fields) == ReadFrom(buffer, pos + len, fields[k := IntVal(i)])
  {
    VarIntAtSingle(buffer, pos);
    VarIntAtSingle(buffer, pos + 1);
    ReadVarIntField(buffer, pos, fields, k, pos + 1, i, pos + len);
  }

  lemma ReadSmallString(buffer: seq<byte>, pos: nat, k: int64, s: seq<byte>, len: nat, fields: map<int64, Value>)
    requires SmallField(k, StrVal(s)) && LaidOutAt(buffer, pos, k, StrVal(s), len)
    ensures ReadFrom(buffer, pos, fields) == ReadFrom(buffer, pos + len, fields[k := StrVal(s)])
  {
    VarIntAtSingle(buffer, pos);
    LenAtSingle(buffer, pos + 1, pos + 2, pos + len, s);
    ReadLenField(buffer, pos, fields, k, pos + 1, s, pos + len);
  }

  lemma DropNothing(s: seq<byte>)
    ensures s[0..] == s
  {
  }

  /** The number of bytes a small field takes. */
  function SmallFieldLength(v: Value): nat
  {
    match v
    case IntVal(_) => 2
    case StrVal(s) => 2 + |s|
    case Unsupported => 0
  }

  /** The fields `keys` of `m` lie one after the other in `bytes`, and nothing follows. This
      form, on a sequence of its own, suits the written bytes, which are built by
      concatenation; `FramedAt` below states the same layout from an offset of a fixed
      buffer, as Read's cursor walks it, and `FramedFrom` carries the one to the other. */
  predicate Framed(bytes: seq<byte>, keys: seq<int64>, m: map<int64, Value>)
    requires InRoundTripDomain(m) && forall k :: k in keys ==> k in m
    decreases |keys|
  {
    if keys == [] then bytes == []
    else
      var len := SmallFieldLength(m[keys[0]]);
      LaidOutAt(bytes, 0, keys[0], m[keys[0]], len) && Framed(bytes[len..], keys[1..], m)
  }

  /** The small fields `keys` of `m` lie field by field. */
  lemma {:induction false} FieldsFramed(keys: seq<int64>, m: map<int64, Value>)
    requires InRoundTripDomain(m) && forall k :: k in keys ==> k in m
    ensures Framed(SmallFields(keys, m), keys, m)
    decreases |keys|
  {
    if keys != [] {
      var k := keys[0];
      var fb, rest := SmallFieldBytes(k, m[k]), SmallFields(keys[1..], m);
      var bytes := fb + rest;
      assert bytes[0..|fb|] == fb;
      assert bytes[|fb|..] == rest;
      SmallFieldLaidOut(bytes, 0, |fb|, k, m[k]);
      FieldsFramed(keys[1..], m);
    }
  }

  /** The first of the fields framed from `pos` on lies at `pos`, and the others are framed
      from the end of it. */
  lemma FramedHead(buffer: seq<byte>, pos: nat, keys: seq<int64>, m: map<int64, Value>)
    requires InRoundTripDomain(m) && forall k :: k in keys ==> k in m
    requires keys != [] && pos <= |buffer| && Framed(buffer[pos..], keys, m)
    ensures var len := SmallFieldLength(m[keys[0]]);
      LaidOutAt(buffer, pos, keys[0], m[keys[0]], len) && Framed(buffer[pos + len..], keys[1..], m)
  {
    var suffix, len := buffer[pos..], SmallFieldLength(m[keys[0]]);
    assert buffer[pos] == suffix[0] && buffer[pos + 1] == suffix[1];
    assert buffer[pos + 2..pos + len] == suffix[2..len];
    assert suffix[len..] == buffer[pos + len..];
  }

  /** The fields `keys` of `m` lie one after the other from `pos` to the end of `buffer`. */
  predicate FramedAt(buffer: seq<byte>, pos: nat, keys: seq<int64>, m: map<int64, Value>)
    requires InRoundTripDomain(m) && forall k :: k in keys ==> k in m
    decreases |keys|
  {
    if keys == [] then pos == |buffer|
    else
      var len := SmallFieldLength(m[keys[0]]);
      LaidOutAt(buffer, pos, keys[0], m[keys[0]], len) && FramedAt(buffer, pos + len, keys[1..], m)
  }

  /** Fields framed in the suffix from `pos` on are framed in the buffer from `pos` on. */
  lemma {:induction false} FramedFrom(buffer: seq<byte>, pos: nat, keys: seq<int64>, m: map<int64, Value>)
    requires InRoundTripDomain(m) && forall k :: k in keys ==> k in m
    requires pos <= |buffer| && Framed(buffer[pos..], keys, m)
    ensures FramedAt(buffer, pos, keys, m)
    decreases |keys|
  {
    if keys == [] {
      assert |buffer[pos..]| == 0;
    } else {
      FramedHead(buffer, pos, keys, m);
      FramedFrom(buffer, pos + SmallFieldLength(m[keys[0]]), keys[1..], m);
    }
  }

  /** Reading the framed fields `keys` of `m` puts each in turn and returns normally. */
  lemma {:induction false} ReadFields(buffer: seq<byte>, pos: nat, keys: seq<int64>, m: map<int64, Value>, fields: map<int64, Value>)
    requires InRoundTripDomain(m) && forall k :: k in keys ==> k in m
    requires pos <= |buffer| && FramedAt(buffer, pos, keys, m)
    ensures ReadFrom(buffer, pos, fields) == ReadResult(PutAll(fields, keys, m), Pass)
    decreases |keys|
  {
    if keys != [] {
      var k := keys[0];
      var len := SmallFieldLength(m[k]);
      ReadSmallField(buffer, pos, k, m[k], len, fields);
      ReadFields(buffer, pos + len, keys[1..], m, fields[k := m[k]]);
    }
  }

  /** On the round-trip domain, Write succeeds and emits each field as its tag byte, then its
      value byte or its length byte and characters, in ascending field order. */
  lemma WriteSmall(m: map<int64, Value>)
    requires InRoundTripDomain(m)
    ensures WriteSpec(m) == Ok(SmallFields(Ascending(m.Keys), m))
  {
    WriteEncodable(m);
    FieldsAreSmall(Ascending(m.Keys), m);
  }

  /** Round trip: Write succeeds on every message of the domain, and reading its bytes into a
      message holding `prior` leaves `prior` overridden by the written fields, with no panic. */
  lemma RoundTrip(m: map<int64, Value>, prior: map<int64, Value>)
    requires InRoundTripDomain(m)
    ensures WriteSpec(m).Ok?
    ensures ReadFrom(WriteSpec(m).value, 0, prior) == ReadResult(prior + m, Pass)
  {
    WriteSmall(m);
    var keys := Ascending(m.Keys);
    var bytes := SmallFields(keys, m);
    DropNothing(bytes);
    FieldsFramed(keys, m);
    FramedFrom(bytes, 0, keys, m);
    ReadFields(bytes, 0, keys, m, prior);
    PutAllUnion(prior, keys, m);
  }
}
