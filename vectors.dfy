/** Concrete byte vectors: those main_test.go checks, worked out against main.go as written,
    and two messages outside the round-trip domain on which Read does not give back what
    Write was given. */
module Vectors {
  import opened Wire
  import opened VarInt
  import opened LenDelim
  import opened Writer
  import opened Reader
  import opened RoundTrip

  /** The seven bytes of the string "testing". */
  const Testing: seq<byte> := [0x74, 0x65, 0x73, 0x74, 0x69, 0x6e, 0x67]

  /** Write emits the field numbers 1 and 2 in this order. */
  lemma AscendingOneTwo()
    ensures Ascending({1, 2}) == [1, 2]
  {
    AscendingHead({1, 2}, 1);
    assert {1, 2} - {1} == {2};
    AscendingHead({2}, 2);
    assert {2} - {2} == {};
  }

  /** Two int fields of 1 are written as tag, value, tag, value. */
  lemma WriteTwoInts()
    ensures WriteSpec(map[1 := IntVal(1), 2 := IntVal(1)]) == Ok([0x08, 0x01, 0x10, 0x01])
  {
    var m: map<int64, Value> := map[1 := IntVal(1), 2 := IntVal(1)];
    var ks: seq<int64> := [1, 2];
    assert Ascending(m.Keys) == ks by {
      assert m.Keys == {1, 2};
      AscendingOneTwo();
    }
    assert SmallFields(ks, m) == [0x08, 0x01, 0x10, 0x01] by {
      assert ks[1..] == [2] && ks[1..][1..] == [];
      assert SmallFields(ks[1..], m) == [0x10, 0x01] + [];
      assert SmallFields(ks, m) == [0x08, 0x01] + [0x10, 0x01];
    }
    WriteSmall(m);
  }

  /** A string field is written as its tag, its length and its characters, and an int field
      after it as its tag and its value. */
  lemma WriteStringThenInt()
    ensures WriteSpec(map[1 := StrVal(Testing), 2 := IntVal(1)]) ==
      Ok([0x09, 0x07] + Testing + [0x10, 0x01])
  {
    var m: map<int64, Value> := map[1 := StrVal(Testing), 2 := IntVal(1)];
    assert InRoundTripDomain(m) by {
      assert SmallField(1, StrVal(Testing)) && SmallField(2, IntVal(1));
    }
    var ks: seq<int64> := [1, 2];
    assert Ascending(m.Keys) == ks by {
      assert m.Keys == {1, 2};
      AscendingOneTwo();
    }
    assert SmallFields(ks, m) == [0x09, 0x07] + Testing + [0x10, 0x01] by {
      assert ks[1..] == [2] && ks[1..][1..] == [];
      assert SmallFields(ks[1..], m) == [0x10, 0x01] + [];
      assert SmallFieldBytes(1, StrVal(Testing)) == [0x09] + ([0x07] + Testing);
      assert SmallFields(ks, m) == ([0x09] + ([0x07] + Testing)) + [0x10, 0x01];
    }
    WriteSmall(m);
  }

  /** 129 is written as 0x01 0x01, with no continuation bit, which parseVarInts reads as the
      single value 1; the flagged form 0x81 0x01 is what reads back as 129. */
  lemma OneTwentyNine()
    ensures VarIntBytes(129) == [0x01, 0x01]
    ensures VarIntAt([0x01, 0x01], 0) == Ok((1, 1))
    ensures VarIntAt([0x81, 0x01], 0) == Ok((129, 2))
  {
    VarIntBytesTwoDigits(129);
    VarIntAtSingle([0x01, 0x01], 0);
    VarIntAtStop([0x81, 0x01], 0, 1);
  }

  /** A tag padded with continuation bytes still reads as field 1: only the low bit of the
      byte before the last and the last byte's seven bits count. */
  lemma ReadPaddedTag()
    ensures ReadFrom([0x80, 0x80, 0x80, 0x08, 0x01], 0, map[]) ==
      ReadResult(map[1 := IntVal(1)], Pass)
  {
    var buffer: seq<byte> := [0x80, 0x80, 0x80, 0x08, 0x01];
    VarIntAtStop(buffer, 0, 3);
    VarIntAtSingle(buffer, 4);
    ReadVarIntField(buffer, 0, map[], 1, 4, 1, 5);
  }

  /** Two fields, the first with a two-byte value 0x81 0x01, which reads as 129. */
  lemma ReadTwoRecords()
    ensures ReadFrom([0x08, 0x81, 0x01, 0x10, 0x01], 0, map[]) ==
      ReadResult(map[1 := IntVal(129), 2 := IntVal(1)], Pass)
  {
    var buffer: seq<byte> := [0x08, 0x81, 0x01, 0x10, 0x01];
    VarIntAtSingle(buffer, 0);
    VarIntAtStop(buffer, 1, 2);
    ReadVarIntField(buffer, 0, map[], 1, 1, 129, 3);
    VarIntAtSingle(buffer, 3);
    VarIntAtSingle(buffer, 4);
    ReadVarIntField(buffer, 3, map[1 := IntVal(129)], 2, 4, 1, 5);
  }

  /** A string field followed by an int field reads back as both. */
  lemma ReadStringThenInt()
    ensures ReadFrom([0x09, 0x07] + Testing + [0x10, 0x01], 0, map[]) ==
      ReadResult(map[1 := StrVal(Testing), 2 := IntVal(1)], Pass)
  {
    var buffer: seq<byte> := [0x09, 0x07] + Testing + [0x10, 0x01];
    assert buffer[2..9] == Testing;
    VarIntAtSingle(buffer, 0);
    LenAtSingle(buffer, 1, 2, 9, Testing);
    ReadLenField(buffer, 0, map[], 1, 1, Testing, 9);
    VarIntAtSingle(buffer, 9);
    VarIntAtSingle(buffer, 10);
    ReadVarIntField(buffer, 9, map[1 := StrVal(Testing)], 2, 10, 1, 11);
  }

  /** A message with one encodable field is written as that field's framing. */
  lemma WriteOneField(k: int64, v: Value)
    requires ValidIndex(k) && !v.Unsupported? && (v.StrVal? ==> IsAscii(v.s))
    ensures WriteSpec(map[k := v]) == Ok(FieldBytes(k, v))
  {
    var m := map[k := v];
    var ks := [k];
    assert Ascending(m.Keys) == ks by {
      assert m.Keys == {k};
      AscendingHead({k}, k);
      assert {k} - {k} == {};
    }
    var fb := FieldBytes(k, v);
    assert Fields(ks, m) == fb by {
      assert ks[1..] == [];
      assert Fields(ks, m) == fb + [];
      assert fb + [] == fb;
    }
    WriteEncodable(m);
  }

  /** An int of 0 has no varint bytes, so only its tag is written, and reading that tag alone
      runs past the end of the buffer. */
  lemma ZeroIsLost()
    ensures WriteSpec(map[1 := IntVal(0)]) == Ok([0x08])
    ensures ReadFrom([0x08], 0, map[]) == ReadResult(map[], Fail(IndexOutOfRange))
  {
    WriteOneField(1, IntVal(0));
    SmallTag(1, 0);
    var tag: seq<byte> := [0x08];
    FieldBytesOf(1, IntVal(0), tag, []);
    assert tag + [] == tag;
    VarIntAtSingle(tag, 0);
    assert SplitTag(0x08) == (1, 0);
    assert VarIntAt(tag, 1).Err?;
  }

  /** The empty string has a length of 0, which has no varint bytes, so only its tag is
      written, and reading that tag alone runs past the end of the buffer. */
  lemma EmptyStringIsLost()
    ensures WriteSpec(map[1 := StrVal([])]) == Ok([0x09])
    ensures ReadFrom([0x09], 0, map[]) == ReadResult(map[], Fail(IndexOutOfRange))
  {
    WriteOneField(1, StrVal([]));
    SmallTag(1, 1);
    var tag: seq<byte> := [0x09];
    EmptyStringVanishes();
    FieldBytesOf(1, StrVal([]), tag, []);
    assert tag + [] == tag;
    VarIntAtSingle(tag, 0);
    assert SplitTag(0x09) == (1, 1);
    assert VarIntAt(tag, 1).Err?;
  }

  /** 300 is written as the digits 2 and 44, with no continuation bit on either. */
  lemma ThreeHundredWritten()
    ensures WriteSpec(map[1 := IntVal(300)]) == Ok([0x08, 0x02, 0x2C])
  {
    var tag: seq<byte>, payload: seq<byte> := [0x08], [0x02, 0x2C];
    assert TagBytes(1, 0) == tag by { SmallTag(1, 0); }
    assert PayloadBytes(IntVal(300)) == payload by { VarIntBytesTwoDigits(300); }
    FieldBytesOf(1, IntVal(300), tag, payload);
    WriteOneField(1, IntVal(300));
    assert tag + payload == [0x08, 0x02, 0x2C];
  }

  /** Read takes the 2 of those bytes as the value and the 44 as the next tag, whose selector
      4 is past the end of the wire-type table: field 1 reads back as 2, then Read panics. */
  lemma ThreeHundredMisread()
    ensures ReadFrom([0x08, 0x02, 0x2C], 0, map[]) ==
      ReadResult(map[1 := IntVal(2)], Fail(IndexOutOfRange))
  {
    var buffer: seq<byte> := [0x08, 0x02, 0x2C];
    VarIntAtSingle(buffer, 0);
    VarIntAtSingle(buffer, 1);
    ReadVarIntField(buffer, 0, map[], 1, 1, 2, 2);
    VarIntAtSingle(buffer, 2);
    assert SplitTag(0x2C) == (5, 4);
  }
}
