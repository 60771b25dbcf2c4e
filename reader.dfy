/** `ProtoReader.Read` of main.go: from the start of the buffer, reads a varint tag, splits it
    into `tag >> 3` (the field number) and `tag & 0x07` (the wire-type selector), looks the
    selector up in `globalMap`, reads a varint or a length-delimited payload, and puts it into
    the message under the field number, until the buffer is used up. */
module Reader {
  import opened Wire
  import opened VarInt
  import opened LenDelim
  import opened Reflection

  /** The message's fields after Read, and whether Read returned or panicked. A panic keeps
      every field put before it. */
  datatype ReadResult = ReadResult(fields: map<int64, Value>, outcome: Outcome)

  /** What Read does from position `pos` on, starting from the fields `fields`. Read keeps
      every field it does not overwrite, puts only field numbers 0 to 31 (a tag is one byte)
      and ints from 0 to 255, and panics only on an index out of range; a tag whose selector
      is past the end of `globalMap` is such a panic, before anything more is put. */
  function ReadFrom(buffer: seq<byte>, pos: nat, fields: map<int64, Value>): (r: ReadResult)
    requires pos <= |buffer|
    ensures fields.Keys <= r.fields.Keys
    ensures forall k :: k in r.fields && (k !in fields || r.fields[k] != fields[k]) ==>
      0 <= k < 0x20 && !r.fields[k].Unsupported? &&
      (r.fields[k].IntVal? ==> 0 <= r.fields[k].i < 0x100)
    ensures r.outcome.Fail? ==> r.outcome.error == IndexOutOfRange
    ensures pos < |buffer| && VarIntAt(buffer, pos).Ok? && VarIntAt(buffer, pos).value.0 % 8 >= |globalMap| ==>
      r == ReadResult(fields, Fail(IndexOutOfRange))
    decreases |buffer| - pos
  {
    if pos == |buffer| then ReadResult(fields, Pass)
    else
      match VarIntAt(buffer, pos)
      case Err(e) => ReadResult(fields, Fail(e))
      case Ok((tag, next)) =>
        var (field, wire) := SplitTag(tag);
        match LookupWireType(wire)
        case Err(e) => ReadResult(fields, Fail(e))
        case Ok(VarInt) =>
          (match VarIntAt(buffer, next)
           case Err(e) => ReadResult(fields, Fail(e))
           case Ok((val, after)) => ReadFrom(buffer, after, fields[field := IntVal(val)]))
        case Ok(LEN) =>
          (match LenAt(buffer, next)
           case Err(e) => ReadResult(fields, Fail(e))
           case Ok((s, after)) => ReadFrom(buffer, after, fields[field := StrVal(s)]))
  }

  /** A varint field at `pos`: the tag's selector is 0, and the value read after it is put
      under the tag's field number before reading goes on. */
  lemma ReadVarIntField(buffer: seq<byte>, pos: nat, fields: map<int64, Value>, field: nat, tagEnd: nat, val: int, after: nat)
    requires pos < |buffer|
    requires VarIntAt(buffer, pos) == Ok((field * 8, tagEnd))
    requires VarIntAt(buffer, tagEnd) == Ok((val, after))
    ensures field < 0x20 && 0 <= val < 0x100 && after <= |buffer|
    ensures ReadFrom(buffer, pos, fields) == ReadFrom(buffer, after, fields[field := IntVal(val)])
  {
    SplitTagInverse(field, 0);
    assert SplitTag(field * 8) == (field, 0);
    assert LookupWireType(0) == Ok(VarInt);
  }

  /** A length-delimited field at `pos`: the tag's selector is 1, and the string read after
      it is put under the tag's field number before reading goes on. */
  lemma ReadLenField(buffer: seq<byte>, pos: nat, fields: map<int64, Value>, field: nat, tagEnd: nat, s: seq<byte>, after: nat)
    requires pos < |buffer|
    requires VarIntAt(buffer, pos) == Ok((field * 8 + 1, tagEnd))
    requires LenAt(buffer, tagEnd) == Ok((s, after))
    ensures field < 0x20 && after <= |buffer|
    ensures ReadFrom(buffer, pos, fields) == ReadFrom(buffer, after, fields[field := StrVal(s)])
  {
    SplitTagInverse(field, 1);
    assert SplitTag(field * 8 + 1) == (field, 1);
    assert LookupWireType(1) == Ok(LEN);
  }

  /** Read: decodes fields one after another into the message, until the buffer is used up or
      a read panics; a panic leaves the message with the fields put before it. */
  method Read(buffer: seq<byte>, m: Message) returns (outcome: Outcome)
    modifies m
    ensures ReadResult(m.fields, outcome) == ReadFrom(buffer, 0, old(m.fields))
  {
    var nextIndex: nat := 0;
    while nextIndex < |buffer|
      invariant nextIndex <= |buffer|
      invariant ReadFrom(buffer, nextIndex, m.fields) == ReadFrom(buffer, 0, old(m.fields))
      decreases |buffer| - nextIndex
    {
      var tagResult := ParseVarInts(buffer, nextIndex);
      if tagResult.Err? {
        return Fail(tagResult.error);
      }
      var (tag, newIndex) := tagResult.value;
      nextIndex := newIndex;
      var wireType := tag % 8;       // tag & 0x07
      var fieldNumber := tag / 8;    // tag >> 3
      if wireType >= |globalMap| {
        return Fail(IndexOutOfRange);
      }
      match globalMap[wireType] {
        case VarInt =>
          var val := ParseVarInts(buffer, nextIndex);
          if val.Err? {
            return Fail(val.error);
          }
          nextIndex := val.value.1;
          var _ := m.Put(fieldNumber, IntVal(val.value.0));
        case LEN =>
          var val := ParseLen(buffer, nextIndex);
          if val.Err? {
            return Fail(val.error);
          }
          nextIndex := val.value.1;
          var _ := m.Put(fieldNumber, StrVal(val.value.0));
      }
    }
    outcome := Pass;
  }
}
