/** `ProtoWriter.Write` of main.go: lists the message's field numbers, sorts them, and for
    each one appends the varint of `index << 3`, ORs the wire-type selector into the last
    byte written so far, and appends the payload (a varint for an int, a length-delimited
    run for a string). */
module Writer {
  import opened Wire
  import opened VarInt
  import opened LenDelim
  import opened Reflection

  predicate StrictlyIncreasing(ks: seq<int64>) {
    forall a, b :: 0 <= a < b < |ks| ==> ks[a] < ks[b]
  }

  predicate IsLeast(k: int64, s: set<int64>) {
    k in s && forall j :: j in s ==> k <= j
  }

  /** Every non-empty finite set of numbers has a least element. */
  lemma {:induction false} LeastExists(s: set<int64>)
    requires s != {}
    ensures exists k :: IsLeast(k, s)
    decreases |s|
  {
    var x :| x in s;
    if s - {x} == {} {
      forall j | j in s
        ensures x <= j
      {
        assert j == x || j in s - {x};
      }
      assert IsLeast(x, s);
    } else {
      LeastExists(s - {x});
      var y :| IsLeast(y, s - {x});
      var least := if x < y then x else y;
      forall j | j in s
        ensures least <= j
      {
        if j != x {
          assert j in s - {x};
        }
      }
      assert IsLeast(least, s);
    }
  }

  /** The field numbers of `s`, least first: the order in which Write emits fields. */
  ghost function Ascending(s: set<int64>): (ks: seq<int64>)
    ensures |ks| == |s|
    ensures forall k :: k in ks <==> k in s
    ensures StrictlyIncreasing(ks)
    decreases |s|
  {
    if s == {} then []
    else
      LeastExists(s);
      var k :| IsLeast(k, s);
      var rest := Ascending(s - {k});
      LeastFirst(s, k, rest);
      [k] + rest
  }

  /** The least field number in front of the others, sorted, sorts them all. */
  lemma LeastFirst(s: set<int64>, k: int64, rest: seq<int64>)
    requires IsLeast(k, s)
    requires |rest| == |s - {k}| && StrictlyIncreasing(rest)
    requires forall j :: j in rest <==> j in s - {k}
    ensures |[k] + rest| == |s| && StrictlyIncreasing([k] + rest)
    ensures forall j :: j in [k] + rest <==> j in s
  {
    var ks := [k] + rest;
    forall a, b | 0 <= a < b < |ks|
      ensures ks[a] < ks[b]
    {
      assert ks[b] == rest[b - 1] && rest[b - 1] in rest;
      if a > 0 {
        assert ks[a] == rest[a - 1];
      }
    }
  }

  lemma AscendingHead(s: set<int64>, k: int64)
    requires IsLeast(k, s)
    ensures Ascending(s) == [k] + Ascending(s - {k})
  {
  }

  lemma AppendAssoc<T>(a: seq<T>, b: seq<T>, c: seq<T>)
    ensures (a + b) + c == a + (b + c)
  {
  }

  lemma EmptyAppend<T>(s: seq<T>)
    ensures [] + s == s
  {
  }

  /** The key collection and `slices.Sort` at the head of Write, as one selection of the least
      remaining field number after another. */
  method SortedKeys(descriptors: map<int64, Value>) returns (keys: seq<int64>)
    ensures keys == Ascending(descriptors.Keys)
    ensures StrictlyIncreasing(keys)
    ensures forall k :: k in keys <==> k in descriptors
  {
    keys := [];
    var rest := descriptors.Keys;
    while rest != {}
      invariant keys + Ascending(rest) == Ascending(descriptors.Keys)
      decreases |rest|
    {
      LeastExists(rest);
      var k :| IsLeast(k, rest);
      ghost var tail := Ascending(rest - {k});
      AscendingHead(rest, k);
      AppendAssoc(keys, [k], tail);
      keys := keys + [k];
      rest := rest - {k};
    }
  }

  /** The payload bytes Write appends after a tag: a varint for an int and a
      length-delimited run for a string. */
  function PayloadBytes(v: Value): seq<byte>
  {
    match v
    case IntVal(i) => VarIntBytes(i)
    case StrVal(s) => LenBytes(s)
    case Unsupported => []
  }

  /** One pass of Write's loop over field `index` holding `v`, on the bytes `buf` written so
      far. When the varint of `index << 3` is empty, the selector is ORed into the last byte of
      the previous field, and into nothing (a panic) when there is none. The payload's
      mismatched-type panics cannot fire: the payload is the value the selector came from. */
  function WriteField(buf: seq<byte>, index: int64, v: Value): Result<seq<byte>>
  {
    var b := buf + VarIntBytes(Shl3(index));
    match ToTagType(v)
    case Err(e) => Err(e)
    case Ok(tagByte) =>
      if |b| == 0 then Err(IndexOutOfRange)
      else Ok(b[|b| - 1 := OrLowBit(b[|b| - 1], tagByte)] + PayloadBytes(v))
  }

  /** Write's loop over the field numbers `keys`, starting from the bytes `buf`. */
  function WriteAll(keys: seq<int64>, m: map<int64, Value>, buf: seq<byte>): Result<seq<byte>>
    requires forall k :: k in keys ==> k in m
  {
    if keys == [] then Ok(buf)
    else
      match WriteField(buf, keys[0], m[keys[0]])
      case Err(e) => Err(e)
      case Ok(b) => WriteAll(keys[1..], m, b)
  }

  /** What Write returns for a message whose fields are `m`, or the panic it raises. */
  ghost function WriteSpec(m: map<int64, Value>): Result<seq<byte>>
  {
    WriteAll(Ascending(m.Keys), m, [])
  }

  /** The tag bytes of field `index` with selector `sel`: the varint of `index << 3` with
      `sel` ORed into its last byte. */
  function TagBytes(index: int64, sel: byte): seq<byte>
    requires sel <= 1
  {
    var t := VarIntBytes(Shl3(index));
    if t == [] then [] else t[..|t| - 1] + [OrLowBit(t[|t| - 1], sel)]
  }

  /** A field as Write frames it: the tag, then the payload. */
  function FieldBytes(index: int64, v: Value): seq<byte>
    requires !v.Unsupported?
  {
    TagBytes(index, if v.IntVal? then 0 else 1) + PayloadBytes(v)
  }

  /** A field's framing from its tag bytes and its payload bytes. */
  lemma FieldBytesOf(index: int64, v: Value, tag: seq<byte>, payload: seq<byte>)
    requires !v.Unsupported?
    requires tag == TagBytes(index, if v.IntVal? then 0 else 1) && payload == PayloadBytes(v)
    ensures FieldBytes(index, v) == tag + payload
  {
  }

  /** The fields `keys` of `m`, framed one after the other in that order. */
  function Fields(keys: seq<int64>, m: map<int64, Value>): seq<byte>
    requires forall k :: k in keys ==> k in m && !m[k].Unsupported?
  {
    if keys == [] then [] else FieldBytes(keys[0], m[keys[0]]) + Fields(keys[1..], m)
  }

  /** Field numbers whose `<< 3` neither overflows nor leaves the tag varint empty. */
  predicate ValidIndex(index: int64) {
    1 <= index < 0x1000_0000_0000_0000
  }

  /** Messages Write encodes without panicking or corrupting an earlier field, and whose
      strings are ASCII, the only strings whose bytes `ToLen` copies unchanged. */
  predicate Encodable(m: map<int64, Value>) {
    forall k :: k in m ==> ValidIndex(k) && !m[k].Unsupported? && (m[k].StrVal? ==> IsAscii(m[k].s))
  }

  /** ORing a selector into an even last byte without the continuation bit adds it to the
      number the bytes denote. */
  lemma OrIntoLastByte(t: seq<byte>, sel: byte)
    requires t != [] && t[|t| - 1] < 0x80 && t[|t| - 1] % 2 == 0 && sel <= 1
    ensures Base128(t[..|t| - 1] + [OrLowBit(t[|t| - 1], sel)]) == Base128(t) + sel
  {
    var init, last := t[..|t| - 1], t[|t| - 1];
    assert t == init + [last];
    Base128Snoc(init, last);
    Base128Snoc(init, OrLowBit(last, sel));
    OrLowDigit(last, sel);
  }

  /** ORing a selector into an even digit adds it to the digit. */
  lemma OrLowDigit(last: byte, sel: byte)
    requires last < 0x80 && last % 2 == 0 && sel <= 1
    ensures OrLowBit(last, sel) % 0x80 == last % 0x80 + sel
  {
    assert OrLowBit(last, sel) == last + sel;
  }

  /** The tag of a valid field is the varint of `index * 8 + sel`: its bytes still carry the
      continuation bit on all but the last two, and they denote the field number shifted
      past the three selector bits. */
  lemma TagBytesValue(index: int64, sel: byte)
    requires ValidIndex(index) && sel <= 1
    ensures |TagBytes(index, sel)| == |VarIntBytes(index * 8)| > 0
    ensures Base128(TagBytes(index, sel)) == index * 8 + sel
    ensures forall j :: 0 <= j < |TagBytes(index, sel)| ==>
      (TagBytes(index, sel)[j] >= 0x80 <==> j < |TagBytes(index, sel)| - 2)
  {
    var n := index * 8;
    assert Shl3(index) == n;
    var t := VarIntBytes(n);
    LastByteOfVarInt(n);
    VarIntBytesValue(n);
    VarIntBytesFlags(n);
    OrIntoLastByte(t, sel);
  }

  /** The last byte of a positive number's varint is its lowest base-128 digit, unflagged. */
  lemma LastByteOfVarInt(n: int)
    requires n > 0
    ensures var t := VarIntBytes(n); t != [] && t[|t| - 1] == n % 0x80
  {
    var d := Digits(n);
    assert d == Digits(n / 0x80) + [n % 0x80];
  }

  /** A valid field is appended whole, after what was written before it. */
  lemma SetLastByte(buf: seq<byte>, t: seq<byte>, x: byte)
    requires t != []
    ensures (buf + t)[|buf + t| - 1 := x] == buf + (t[..|t| - 1] + [x])
  {
  }

  /** One field of Write's loop, as its step over the remaining field numbers. */
  lemma WriteAllStep(keys: seq<int64>, n: nat, m: map<int64, Value>, before: seq<byte>)
    requires n < |keys| && forall k :: k in keys ==> k in m
    ensures WriteField(before, keys[n], m[keys[n]]).Ok? ==>
      WriteAll(keys[n..], m, before) == WriteAll(keys[n + 1..], m, WriteField(before, keys[n], m[keys[n]]).value)
    ensures WriteField(before, keys[n], m[keys[n]]).Err? ==>
      WriteAll(keys[n..], m, before) == WriteField(before, keys[n], m[keys[n]])
  {
    assert keys[n..][0] == keys[n];
    assert keys[n..][1..] == keys[n + 1..];
  }

  /** WriteField unfolded as Write's loop body computes it, step by step. */
  lemma WriteFieldUnfold(before: seq<byte>, b: seq<byte>, index: int64, v: Value, sel: byte, payload: seq<byte>)
    requires b == VarIntBytes(Shl3(index))
    requires ToTagType(v) == Ok(sel)
    requires |before + b| > 0
    requires payload == PayloadBytes(v)
    ensures var bb := before + b;
      WriteField(before, index, v) == Ok(bb[|bb| - 1 := OrLowBit(bb[|bb| - 1], sel)] + payload)
  {
  }

  lemma WriteFieldOk(buf: seq<byte>, index: int64, v: Value)
    requires ValidIndex(index) && !v.Unsupported?
    ensures WriteField(buf, index, v) == Ok(buf + FieldBytes(index, v))
  {
    var sel: byte := if v.IntVal? then 0 else 1;
    var t := VarIntBytes(Shl3(index));
    assert t != [] by {
      LastByteOfVarInt(index * 8);
    }
    var b := buf + t;
    assert ToTagType(v) == Ok(sel);
    var tagged := b[|b| - 1 := OrLowBit(b[|b| - 1], sel)];
    assert tagged == buf + TagBytes(index, sel) by {
      assert b[|b| - 1] == t[|t| - 1];
      SetLastByte(buf, t, OrLowBit(t[|t| - 1], sel));
    }
    assert WriteField(buf, index, v) == Ok(tagged + PayloadBytes(v));
    AppendAssoc(buf, TagBytes(index, sel), PayloadBytes(v));
  }

  lemma {:induction false} WriteAllOk(keys: seq<int64>, m: map<int64, Value>, buf: seq<byte>)
    requires forall k :: k in keys ==> k in m && ValidIndex(k) && !m[k].Unsupported?
    ensures WriteAll(keys, m, buf) == Ok(buf + Fields(keys, m))
    decreases |keys|
  {
    if keys != [] {
      var fb := FieldBytes(keys[0], m[keys[0]]);
      WriteFieldOk(buf, keys[0], m[keys[0]]);
      WriteAllOk(keys[1..], m, buf + fb);
      AppendAssoc(buf, fb, Fields(keys[1..], m));
    } else {
      assert buf + Fields(keys, m) == buf;
    }
  }

  /** A value of any type but int and string makes the loop panic, whatever came before. */
  lemma {:induction false} WriteAllUnsupported(keys: seq<int64>, m: map<int64, Value>, buf: seq<byte>, k: int64)
    requires forall j :: j in keys ==> j in m
    requires k in keys && m[k].Unsupported?
    ensures WriteAll(keys, m, buf).Err?
    decreases |keys|
  {
    if keys[0] != k {
      match WriteField(buf, keys[0], m[keys[0]])
      case Err(_) =>
      case Ok(b) => WriteAllUnsupported(keys[1..], m, b, k);
    }
  }

  /** Write emits every field, in strictly ascending field-number order, when every field
      number is valid and every value an int or a string. */
  lemma WriteEncodable(m: map<int64, Value>)
    requires Encodable(m)
    ensures WriteSpec(m) == Ok(Fields(Ascending(m.Keys), m))
    ensures StrictlyIncreasing(Ascending(m.Keys))
  {
    var keys := Ascending(m.Keys);
    WriteAllOk(keys, m, []);
    EmptyAppend(Fields(keys, m));
  }

  /** Write panics on a value that is neither an int nor a string. */
  lemma WriteUnsupported(m: map<int64, Value>, k: int64)
    requires k in m && m[k].Unsupported?
    ensures WriteSpec(m).Err?
  {
    WriteAllUnsupported(Ascending(m.Keys), m, [], k);
  }

  /** Write panics on a field number of zero or below (short of the range where `<< 3`
      wraps), because the least field number comes first, its tag varint is empty and there
      is no earlier byte to OR the selector into. */
  lemma WriteNonPositive(m: map<int64, Value>, k: int64)
    requires k in m && -0x1000_0000_0000_0000 <= k <= 0
    requires forall j :: j in m ==> j >= -0x1000_0000_0000_0000
    ensures WriteSpec(m).Err?
  {
    var keys := Ascending(m.Keys);
    var first := keys[0];
    assert first in m;
    var kk :| 0 <= kk < |keys| && keys[kk] == k;
    assert first <= k;
    assert VarIntBytes(Shl3(first)) == [];
  }

  /** When Write succeeds, when it panics, and what it writes. */
  lemma WriteSpecOutcomes(m: map<int64, Value>)
    ensures (exists k :: k in m && m[k].Unsupported?) ==> WriteSpec(m).Err?
    ensures ((exists k :: k in m && -0x1000_0000_0000_0000 <= k <= 0) &&
             (forall k :: k in m ==> k >= -0x1000_0000_0000_0000)) ==> WriteSpec(m).Err?
    ensures Encodable(m) ==> WriteSpec(m) == Ok(Fields(Ascending(m.Keys), m))
  {
    if k :| k in m && m[k].Unsupported? {
      WriteUnsupported(m, k);
    }
    if (exists k :: k in m && -0x1000_0000_0000_0000 <= k <= 0) &&
       (forall k :: k in m ==> k >= -0x1000_0000_0000_0000) {
      var k :| k in m && -0x1000_0000_0000_0000 <= k <= 0;
      WriteNonPositive(m, k);
    }
    if Encodable(m) {
      WriteEncodable(m);
    }
  }

  /** Write: sorts the field numbers and frames each field in turn into one buffer. */
  method Write(m: Message) returns (r: Result<seq<byte>>)
    requires forall k :: k in m.fields && m.fields[k].StrVal? ==> IsAscii(m.fields[k].s)
    ensures r == WriteSpec(m.fields)
    ensures (exists k :: k in m.fields && m.fields[k].Unsupported?) ==> r.Err?
    ensures ((exists k :: k in m.fields && -0x1000_0000_0000_0000 <= k <= 0) &&
             (forall k :: k in m.fields ==> k >= -0x1000_0000_0000_0000)) ==> r.Err?
    ensures Encodable(m.fields) ==> r == Ok(Fields(Ascending(m.fields.Keys), m.fields))
  {
    WriteSpecOutcomes(m.fields);
    var descriptors := m.GetDescriptors();
    var keys := SortedKeys(descriptors);
    var buf: seq<byte> := [];
    assert keys[0..] == keys;
    var n := 0;
    while n < |keys|
      invariant 0 <= n <= |keys|
      invariant WriteAll(keys[n..], descriptors, buf) == WriteAll(keys, descriptors, [])
    {
      var index := keys[n];
      var val := descriptors[index];
      WriteAllStep(keys, n, descriptors, buf);
      var b := ToVarInts(Shl3(index));
      ghost var before := buf;
      buf := buf + b;
      var tagType := ToTagType(val);
      if tagType.Err? {
        return Err(UnsupportedType); // panic(err)
      }
      var tagByte := tagType.value;
      if |buf| == 0 {
        return Err(IndexOutOfRange); // buf[-1]
      }
      var lastByteIndex := |buf| - 1;
      buf := buf[lastByteIndex := OrLowBit(buf[lastByteIndex], tagByte)];
      var payload := m.GetValue(index);
      assert payload == val;
      var p: Result<seq<byte>>;
      match globalMap[tagByte] {
        case VarInt =>
          p := ToVarIntsGeneric(payload);
        case LEN =>
          p := ToLen(payload);
      }
      // The mismatched-type panics cannot fire: the payload is the value the selector came from.
      assert p == Ok(PayloadBytes(val));
      buf := buf + p.value;
      WriteFieldUnfold(before, b, index, val, tagByte, p.value);
      n := n + 1;
    }
    assert keys[n..] == [];
    r := Ok(buf);
  }
}
