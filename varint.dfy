/** The varint encoder `ToVarInts` (with `ToVarIntsGeneric`) and the decoder `parseVarInts` of
    main.go. The encoder writes base-128 digits most significant first and sets the
    continuation bit 0x80 only on a byte that is prepended once two bytes are already held;
    the decoder truncates its accumulator to a byte at every step. */
module VarInt {
  import opened Wire

  /** A base-128 digit. */
  type digit = x: int | 0 <= x < 0x80

  /** The base-128 digits of `n`, most significant first; zero has none. */
  function Digits(n: nat): (d: seq<digit>)
    ensures |d| > 0 <==> n > 0
    ensures n > 0 ==> d[0] > 0
    decreases n
  {
    if n == 0 then [] else Digits(n / 0x80) + [n % 0x80]
  }

  /** The number denoted by the low seven bits of each element, most significant first. */
  function Base128(d: seq<int>): nat
  {
    if d == [] then 0 else Base128(d[..|d| - 1]) * 0x80 + d[|d| - 1] % 0x80
  }

  function Pow128(k: nat): (r: nat)
    ensures r >= 1
  {
    if k == 0 then 1 else 0x80 * Pow128(k - 1)
  }

  /** The digits with the continuation bit set on every one but the last two. */
  function Flagged(d: seq<digit>): seq<byte>
  {
    seq(|d|, j requires 0 <= j < |d| => if j < |d| - 2 then d[j] as int + 0x80 else d[j] as int)
  }

  /** Flagging keeps each digit in the low seven bits and sets the top bit where it said. */
  lemma FlaggedBytes(d: seq<digit>)
    ensures |Flagged(d)| == |d|
    ensures forall j :: 0 <= j < |d| ==> Flagged(d)[j] % 0x80 == d[j]
    ensures forall j :: 0 <= j < |d| ==> (Flagged(d)[j] >= 0x80 <==> j < |d| - 2)
  {
  }

  /** The bytes `ToVarInts(i)` returns: nothing for zero and negative numbers, otherwise one
      byte per base-128 digit, most significant first, the continuation bit on all but the
      last two. */
  function VarIntBytes(i: int): (bs: seq<byte>)
    ensures i <= 0 <==> bs == []
  {
    if i <= 0 then [] else Flagged(Digits(i))
  }

  /** Every byte of an encoding but the last two carries the continuation bit. */
  lemma VarIntBytesFlags(i: int)
    ensures var bs := VarIntBytes(i);
      forall j :: 0 <= j < |bs| ==> (bs[j] >= 0x80 <==> j < |bs| - 2)
  {
    if i > 0 {
      FlaggedBytes(Digits(i));
    }
  }

  /** One more digit at the low end. */
  lemma Base128Snoc(d: seq<int>, x: int)
    ensures Base128(d + [x]) == Base128(d) * 0x80 + x % 0x80
  {
    assert (d + [x])[..|d|] == d;
  }

  /** The digits of `n` denote `n`. */
  lemma {:induction false} DigitsValue(n: nat)
    ensures Base128(Digits(n)) == n
    decreases n
  {
    if n > 0 {
      var d := Digits(n);
      assert d[..|d| - 1] == Digits(n / 0x80);
      DigitsValue(n / 0x80);
    }
  }

  /** `n` has exactly `|Digits(n)|` base-128 digits. */
  lemma {:induction false} DigitsLength(n: nat)
    requires n > 0
    ensures Pow128(|Digits(n)| - 1) <= n < Pow128(|Digits(n)|)
    decreases n
  {
    if n >= 0x80 {
      DigitsLength(n / 0x80);
    }
  }

  /** Base128 reads only the low seven bits of each element. */
  lemma {:induction false} Base128Low7(a: seq<int>, b: seq<int>)
    requires |a| == |b|
    requires forall j :: 0 <= j < |a| ==> a[j] % 0x80 == b[j] % 0x80
    ensures Base128(a) == Base128(b)
    decreases |a|
  {
    if a != [] {
      Base128Low7(a[..|a| - 1], b[..|b| - 1]);
    }
  }

  /** For a positive number, the low seven bits of the encoding's bytes are its base-128
      digits, most significant first and with no leading zero digit, so they reassemble it,
      and there is one byte per digit. */
  lemma VarIntBytesValue(i: int)
    requires i > 0
    ensures var bs := VarIntBytes(i);
      Base128(bs) == i && bs[0] % 0x80 != 0 && Pow128(|bs| - 1) <= i < Pow128(|bs|)
  {
    var d := Digits(i);
    FlaggedBytes(d);
    Base128Low7(VarIntBytes(i), d);
    DigitsValue(i);
    DigitsLength(i);
  }

  lemma FlaggedCons(d: digit, low: seq<digit>)
    ensures [if |low| > 1 then d + 0x80 else d] + Flagged(low) == Flagged([d] + low)
  {
  }

  /** Moving the lowest digit of `n` to the front of the digits already emitted. */
  lemma PrependDigit(i: nat, n: nat, low: seq<digit>)
    requires n > 0 && Digits(i) == Digits(n) + low
    ensures Digits(i) == Digits(n / 0x80) + ([n % 0x80] + low)
  {
    assert Digits(n) == Digits(n / 0x80) + [n % 0x80];
    assert Digits(n / 0x80) + [n % 0x80] + low == Digits(n / 0x80) + ([n % 0x80] + low);
  }

  /** ToVarInts: emits base-128 digits least significant first, prepending each to the buffer. */
  method ToVarInts(i: int) returns (buf: seq<byte>)
    ensures buf == VarIntBytes(i)
  {
    buf := [];
    var n := i;
    ghost var low: seq<digit> := [];
    while n > 0
      invariant i <= 0 ==> n == i && low == []
      invariant i > 0 ==> 0 <= n && Digits(i) == Digits(n) + low
      invariant buf == Flagged(low)
      decreases n
    {
      var b := n % 0x80;             // byte(i & 0x7F)
      if |buf| > 1 {
        b := b + 0x80;               // b | 0x80, on a byte below 0x80
      }
      PrependDigit(i, n, low);
      FlaggedCons(n % 0x80, low);
      buf := [b] + buf;
      low := [n % 0x80] + low;
      n := n / 0x80;                 // i >> 7, on a positive int
    }
  }

  /** ToVarIntsGeneric: the varint of an int payload; any other payload is a type mismatch. */
  function ToVarIntsGeneric(v: Value): (r: Result<seq<byte>>)
    ensures r.Ok? <==> v.IntVal?
    ensures r.Err? ==> r.error == MismatchedType
    ensures v.IntVal? && v.i > 0 ==> Base128(r.value) == v.i && r.value[0] % 0x80 != 0
    ensures v.IntVal? && v.i > 0 ==>
      forall j :: 0 <= j < |r.value| ==> (r.value[j] >= 0x80 <==> j < |r.value| - 2)
    ensures v.IntVal? && v.i <= 0 ==> r.value == []
  {
    if !v.IntVal? then Err(MismatchedType)
    else if v.i > 0 then VarIntBytesValue(v.i); VarIntBytesFlags(v.i); Ok(VarIntBytes(v.i))
    else Ok(VarIntBytes(v.i))
  }

  /** The first index at or after `pos` whose byte has the continuation bit clear. */
  function StopIndex(buffer: seq<byte>, pos: nat): (r: Option<nat>)
    ensures r.Some? ==> pos <= r.value < |buffer| && buffer[r.value] < 0x80
    decreases |buffer| - pos
  {
    if pos >= |buffer| then None
    else if buffer[pos] < 0x80 then Some(pos)
    else StopIndex(buffer, pos + 1)
  }

  /** StopIndex passes over continuation bytes only, and finds none missing. */
  lemma {:induction false} StopIndexScans(buffer: seq<byte>, pos: nat)
    ensures StopIndex(buffer, pos).Some? ==>
      forall j :: pos <= j < StopIndex(buffer, pos).value ==> buffer[j] >= 0x80
    ensures StopIndex(buffer, pos).None? ==> forall j :: pos <= j < |buffer| ==> buffer[j] >= 0x80
    decreases |buffer| - pos
  {
    if pos < |buffer| && buffer[pos] >= 0x80 {
      StopIndexScans(buffer, pos + 1);
    }
  }

  /** What `parseVarInts(buffer, start)` returns, or the panic it raises. It stops just past
      the first byte at or after `start` whose continuation bit is clear, and panics when there
      is none. Its accumulator is cut to a byte after each shift, so of all the bytes read only
      the low bit of the next-to-last one and the low seven bits of the last one survive. */
  function VarIntAt(buffer: seq<byte>, start: nat): (r: Result<(int, nat)>)
    ensures r.Ok? ==> 0 <= r.value.0 < 0x100 && start < r.value.1 <= |buffer|
    ensures r.Ok? ==> buffer[r.value.1 - 1] < 0x80
    ensures r.Err? ==> r.error == IndexOutOfRange
  {
    match StopIndex(buffer, start)
    case None => Err(IndexOutOfRange)
    case Some(k) =>
      Ok(((if k > start then buffer[k - 1] % 2 * 0x80 else 0) + buffer[k] % 0x80, (k + 1) as nat))
  }

  /** parseVarInts reads continuation bytes up to the first byte without one, and panics
      exactly when every byte from `start` on carries the continuation bit. */
  lemma VarIntAtStops(buffer: seq<byte>, start: nat)
    ensures var r := VarIntAt(buffer, start);
      r.Ok? ==> forall j :: start <= j < r.value.1 - 1 ==> buffer[j] >= 0x80
    ensures VarIntAt(buffer, start).Err? <==> forall j :: start <= j < |buffer| ==> buffer[j] >= 0x80
  {
    StopIndexScans(buffer, start);
  }

  /** The first byte without the continuation bit determines StopIndex. */
  lemma {:induction false} StopIndexAt(buffer: seq<byte>, pos: nat, k: nat)
    requires pos <= k < |buffer| && buffer[k] < 0x80
    requires forall j :: pos <= j < k ==> buffer[j] >= 0x80
    ensures StopIndex(buffer, pos) == Some(k)
    decreases k - pos
  {
    if pos < k {
      StopIndexAt(buffer, pos + 1, k);
    }
  }

  lemma ShiftToByte(v: int)
    requires 0 <= v < 0x100
    ensures v * 0x80 % 0x100 == v % 2 * 0x80
  {
  }

  /** The accumulator's low bit is the low bit of the byte read last. */
  lemma AccumulatorLowBit(high: int, last: byte)
    requires high == 0 || high == 0x80
    ensures 0 <= high + last % 0x80 < 0x100
    ensures (high + last % 0x80) % 2 == last % 2
  {
  }

  /** parseVarInts: shifts the accumulator by seven bits and ORs in the low seven bits of
      each byte until a byte without the continuation bit has been read. */
  method ParseVarInts(buffer: seq<byte>, start: nat) returns (r: Result<(int, nat)>)
    ensures r == VarIntAt(buffer, start)
    ensures r.Ok? ==> 0 <= r.value.0 < 0x100 && start < r.value.1 <= |buffer|
  {
    var continuation := true;
    var val: int := 0;
    var pos := start;
    while continuation
      invariant start <= pos
      invariant pos > start ==> pos <= |buffer|
      invariant continuation ==> StopIndex(buffer, pos) == StopIndex(buffer, start)
      invariant !continuation ==> pos > start && StopIndex(buffer, start) == Some(pos - 1)
      invariant pos == start ==> val == 0 && continuation
      invariant pos > start ==>
        val == (if pos - 1 > start then buffer[pos - 2] % 2 * 0x80 else 0) + buffer[pos - 1] % 0x80
      decreases |buffer| - pos + (if continuation then 1 else 0)
    {
      if pos > start {
        AccumulatorLowBit(if pos - 1 > start then buffer[pos - 2] % 2 * 0x80 else 0, buffer[pos - 1]);
      }
      ShiftToByte(val);
      val := val * 0x80;             // val << 7
      if pos >= |buffer| {
        return Err(IndexOutOfRange); // buffer[starting_index] panics
      }
      var b := buffer[pos];
      continuation := b >= 0x80;     // b & 0x80 == 0x80
      // The source's end-of-stream guard follows here; it never fires, because the index
      // above has already been checked.
      pos := pos + 1;
      val := val % 0x100 + b % 0x80; // int(byte(val) | (b & 0x7F)): the bits do not overlap
    }
    r := Ok((val, pos));
  }

  /** A value from 1 to 127 is the single byte holding it. */
  lemma VarIntBytesSmall(i: int)
    requires 1 <= i < 0x80
    ensures VarIntBytes(i) == [i]
  {
    assert Digits(i) == Digits(0) + [i];
  }

  /** A byte without the continuation bit is a whole varint on its own. */
  lemma VarIntAtSingle(buffer: seq<byte>, start: nat)
    requires start < |buffer| && buffer[start] < 0x80
    ensures VarIntAt(buffer, start) == Ok((buffer[start] as int, (start + 1) as nat))
  {
    StopIndexAt(buffer, start, start);
  }

  /** A value from 1 to 127 is one byte, and decodes back from any position. */
  lemma VarIntRoundTripSmall(pre: seq<byte>, i: int, rest: seq<byte>)
    requires 1 <= i < 0x80
    ensures VarIntBytes(i) == [i]
    ensures VarIntAt(pre + VarIntBytes(i) + rest, |pre|) == Ok((i, |pre| + 1))
  {
    VarIntBytesSmall(i);
    var buffer := pre + [i] + rest;
    StopIndexAt(buffer, |pre|, |pre|);
  }

  /** A number of two base-128 digits is written as those two digits with no continuation
      bit on either. */
  lemma VarIntBytesTwoDigits(i: int)
    requires 0x80 <= i < 0x4000
    ensures VarIntBytes(i) == [i / 0x80, i % 0x80]
  {
    var q := i / 0x80;
    assert Digits(i) == Digits(q) + [i % 0x80];
    assert Digits(q) == Digits(0) + [q];
    var d := Digits(i);
    assert d == [q, i % 0x80];
    FlaggedBytes(d);
  }

  /** The last two digits of a number of at least two digits. */
  lemma DigitsTail(i: nat)
    requires i >= 0x80
    ensures var d := Digits(i); |d| >= 2 && d[|d| - 2] == (i / 0x80) % 0x80
    ensures var d := Digits(i); i >= 0x4000 ==> |d| >= 3 && d[|d| - 3] == (i / 0x4000) % 0x80
  {
    var q := i / 0x80;
    assert Digits(i) == Digits(q) + [i % 0x80];
    assert Digits(q) == Digits(q / 0x80) + [q % 0x80];
    if i >= 0x4000 {
      assert q / 0x80 == i / 0x4000;
      assert Digits(q / 0x80) == Digits(q / 0x80 / 0x80) + [(q / 0x80) % 0x80];
    }
  }

  /** The byte the accumulator holds after the last two digits of `q` are shifted in. */
  lemma ByteOfNumber(q: nat)
    ensures (q / 0x80) % 2 * 0x80 + q % 0x80 == q % 0x100
  {
  }

  lemma LowBitOfLow7(a: nat)
    ensures a % 0x80 % 2 == a % 2
  {
  }

  lemma ShiftTwice(i: nat)
    ensures i / 0x80 / 0x80 == i / 0x4000
  {
  }

  /** Where parseVarInts stops: at the first byte without the continuation bit. */
  lemma VarIntAtStop(buffer: seq<byte>, start: nat, k: nat)
    requires start <= k < |buffer| && buffer[k] < 0x80
    requires forall j :: start <= j < k ==> buffer[j] >= 0x80
    ensures VarIntAt(buffer, start) ==
      Ok(((if k > start then buffer[k - 1] % 2 * 0x80 else 0) + buffer[k] % 0x80, (k + 1) as nat))
  {
    StopIndexAt(buffer, start, k);
  }

  /** From 128 on, decoding an encoding stops one byte short, because the last two bytes
      both lack the continuation bit, and yields `(i >> 7) & 0xFF`, never `i`. */
  lemma VarIntMisreadsLarge(i: int, rest: seq<byte>)
    requires i >= 0x80
    ensures |VarIntBytes(i)| >= 2
    ensures VarIntAt(VarIntBytes(i) + rest, 0) == Ok(((i / 0x80) % 0x100, |VarIntBytes(i)| - 1))
  {
    var bs := VarIntBytes(i);
    var d := Digits(i);
    DigitsTail(i);
    VarIntBytesFlags(i);
    FlaggedBytes(d);
    var k := |bs| - 2;
    var buffer := bs + rest;
    assert forall j :: 0 <= j < |bs| ==> buffer[j] == bs[j];
    VarIntAtStop(buffer, 0, k);
    var q := i / 0x80;
    ByteOfNumber(q);
    ShiftTwice(i);
    assert bs[k] % 0x80 == q % 0x80;
    if k > 0 {
      LowBitOfLow7(bs[k - 1]);
      LowBitOfLow7(q / 0x80);
      assert bs[k - 1] % 0x80 == (q / 0x80) % 0x80;
    } else {
      assert q < 0x80;
    }
  }
}
