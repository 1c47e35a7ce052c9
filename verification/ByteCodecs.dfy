/** Conversions between unsigned integers and byte buffers (src/utils.c). */
module ByteCodecs {
  import opened Bits
  import opened Words

  /** The `count` low bytes of a value, least significant first. */
  function LeBytes(value: nat, count: nat): (bytes: seq<uint8>)
    ensures |bytes| == count
  {
    if count == 0 then [] else [value % 0x100] + LeBytes(value / 0x100, count - 1)
  }

  /** The number that a little-endian byte string denotes. */
  function LeValue(bytes: seq<uint8>): nat {
    if bytes == [] then 0 else bytes[0] + 0x100 * LeValue(bytes[1..])
  }

  ghost predicate HighBytesZero(bytes: seq<uint8>) {
    forall i :: 2 <= i < |bytes| ==> bytes[i] == 0
  }

  // Encoding loops

  lemma {:induction false} LeBytesAt(value: nat, count: nat, i: nat)
    requires i < count
    ensures LeBytes(value, count)[i] == value / Pow2(8 * i) % 0x100
  {
    if i == 0 {
    } else {
      LeBytesAt(value / 0x100, count - 1, i - 1);
      Pow2Sum(8, 8 * i - 8);
      assert Pow2(8) == 0x100;
      DivDiv(value, 0x100, Pow2(8 * i - 8));
    }
  }

  /** The byte that every encoding loop stores: shifted down to the low end and masked. */
  method ShiftedByte(value: nat, i: nat, count: nat) returns (byte: uint8)
    requires i < count
    ensures byte == LeBytes(value, count)[i]
  {
    AndLowMask(Shr(value, 8 * i), 8);
    assert Pow2(8) == 0x100;
    LeBytesAt(value, count, i);
    return And(Shr(value, 8 * i), 0xFF);
  }

  method U64ToLeBytes(value: uint64, buffer: array<uint8>) returns (result: array<uint8>)
    requires buffer.Length >= 8
    modifies buffer
    ensures result == buffer
    ensures buffer[..8] == LeBytes(value, 8) && buffer[8..] == old(buffer[8..])
  {
    for i := 0 to 8
      invariant buffer[..i] == LeBytes(value, 8)[..i] && buffer[8..] == old(buffer[8..])
    {
      var byte := ShiftedByte(value, i, 8);
      buffer[i] := byte;
    }
    return buffer;
  }

  /** Writes the same bytes in the same order as the little-endian loop, last position first. */
  method U64ToBeBytes(value: uint64, buffer: array<uint8>) returns (result: array<uint8>)
    requires buffer.Length >= 8
    modifies buffer
    ensures result == buffer
    ensures buffer[..8] == LeBytes(value, 8) && buffer[8..] == old(buffer[8..])
  {
    var i := 7;
    while i >= 0
      invariant -1 <= i <= 7
      invariant buffer[i + 1..8] == LeBytes(value, 8)[i + 1..] && buffer[8..] == old(buffer[8..])
    {
      var byte := ShiftedByte(value, i, 8);
      buffer[i] := byte;
      i := i - 1;
    }
    return buffer;
  }

  method U16ToLeBytes(value: uint16, buffer: array<uint8>) returns (result: array<uint8>)
    requires buffer.Length >= 2
    modifies buffer
    ensures result == buffer
    ensures buffer[..2] == LeBytes(value, 2) && buffer[2..] == old(buffer[2..])
  {
    for i := 0 to 2
      invariant buffer[..i] == LeBytes(value, 2)[..i] && buffer[2..] == old(buffer[2..])
    {
      var byte := ShiftedByte(value, i, 2);
      buffer[i] := byte;
    }
    return buffer;
  }

  method U32ToLeBytes(value: uint32, buffer: array<uint8>) returns (result: array<uint8>)
    requires buffer.Length >= 4
    modifies buffer
    ensures result == buffer
    ensures buffer[..4] == LeBytes(value, 4) && buffer[4..] == old(buffer[4..])
  {
    for i := 0 to 4
      invariant buffer[..i] == LeBytes(value, 4)[..i] && buffer[4..] == old(buffer[4..])
    {
      var byte := ShiftedByte(value, i, 4);
      buffer[i] := byte;
    }
    return buffer;
  }

  // Decoding loops

  /** What each decoding loop returns, as a function of the buffer. */
  function ReadU64Le(b: seq<nat>): nat
    requires |b| == 8
  {
    b[0] + 0x100 * b[1] + 0x100_0000 * b[2] + 0x1_0000_0000_0000 * b[3]
  }

  function ReadU64Be(b: seq<nat>): nat
    requires |b| == 8
  {
    0x100_0000_0000_0000 * b[7]
  }

  function ReadU32Le(b: seq<nat>): nat
    requires |b| == 4
  {
    b[0] + 0x100 * b[1]
  }

  function ReadU16Le(b: seq<nat>): nat
    requires |b| == 2
  {
    b[0] + 0x100 * b[1]
  }

  /** The factor 2^(8 * i) by which a round shifts. */
  ghost function ByteWeight(i: nat): (weight: nat)
    requires i < 8
  {
    if i == 0 then 1
    else if i == 1 then 0x100
    else if i == 2 then 0x1_0000
    else if i == 3 then 0x100_0000
    else if i == 4 then 0x1_0000_0000
    else if i == 5 then 0x100_0000_0000
    else if i == 6 then 0x1_0000_0000_0000
    else 0x100_0000_0000_0000
  }

  lemma ByteWeightIsPow2(i: nat)
    requires i < 8
    ensures Pow2(8 * i) == ByteWeight(i)
  {
    Pow2Values();
  }

  lemma OrWithFreeByte(value: nat, byte: uint8)
    requires value % 0x100 == 0
    ensures Or(value, byte) == value + byte
  {
    assert Pow2(8) == 0x100;
    OrOfDisjoint(value / 0x100, 8, byte);
  }

  lemma ShiftU64(x: nat, i: nat)
    requires i < 8
    ensures Shl(x, 8 * i, 64) == x * ByteWeight(i) % 0x1_0000_0000_0000_0000
  {
    ByteWeightIsPow2(i);
    assert Pow2(64) == 0x1_0000_0000_0000_0000 by { Pow2Values(); }
  }

  /** After a round that shifts, the low byte is free again. */
  lemma ShiftFreesLowByte(x: nat, i: nat)
    requires 1 <= i < 8
    ensures x * ByteWeight(i) % 0x1_0000_0000_0000_0000 % 0x100 == 0
  {
    var a := ByteWeight(i) / 0x100;
    assert ByteWeight(i) == 0x100 * a;
    Associate(x, 0x100, a);
    MultipleOfByte(x * a);
  }

  lemma Associate(x: nat, b: nat, a: nat)
    ensures x * (b * a) == b * (x * a)
  {
  }

  lemma MultipleOfByte(y: nat)
    ensures 0x100 * y % 0x1_0000_0000_0000_0000 % 0x100 == 0
  {
  }

  /** One decoding round in 64 bits: the byte joins the accumulator, which then moves up by its position. */
  method AccumulateU64(value: nat, byte: uint8, i: nat) returns (shifted: uint64)
    requires i < 8
    ensures shifted == Or(value, byte) * ByteWeight(i) % 0x1_0000_0000_0000_0000
  {
    var sum := Or(value, byte);
    ShiftU64(sum, i);
    return Shl(sum, 8 * i, 64);
  }

  lemma ShiftU16(x: nat, i: nat)
    requires x < 0x1_0000 && i < 4
    ensures i == 0 ==> Shl(x, 8 * i, 16) == x
    ensures i == 1 && x < 0x100 ==> Shl(x, 8 * i, 16) == 0x100 * x
    ensures i >= 2 ==> Shl(x, 8 * i, 16) == 0
    ensures Shl(x, 8 * i, 16) < 0x1_0000
  {
    ByteWeightIsPow2(i);
    assert Pow2(16) == 0x1_0000 by { Pow2Values(); }
    if i == 3 {
      assert x * 0x100_0000 == 0x1_0000 * (x * 0x100);
    }
  }

  lemma {:induction false} OrStaysInWidth(x: nat, y: nat, width: nat)
    requires x < Pow2(width) && y < Pow2(width)
    ensures Or(x, y) < Pow2(width)
    decreases width
  {
    if width == 0 {
    } else {
      OrStaysInWidth(x / 2, y / 2, width - 1);
    }
  }

  /** One round on a `uint16_t`, in the cases that the loops below meet. */
  method AccumulateU16(value: uint16, byte: uint8, i: nat) returns (shifted: uint16)
    requires i < 4
    ensures value == 0 && i >= 2 ==> shifted == 0
    ensures value == 0 && i == 1 ==> shifted == 0x100 * (byte as int)
    ensures value % 0x100 == 0 && i == 0 ==> shifted == value + byte
  {
    var sum := Or(value, byte);
    assert Pow2(16) == 0x1_0000 by { Pow2Values(); }
    OrStaysInWidth(value, byte, 16);
    if value % 0x100 == 0 {
      OrWithFreeByte(value, byte);
    }
    ShiftU16(sum, i);
    return Shl(sum, 8 * i, 16);
  }

  /** The accumulator of `u64_from_le_bytes` once the bytes above position i are read. */
  ghost function PartialU64Le(b: seq<nat>, i: int): nat
    requires |b| == 8 && -1 <= i <= 7
    decreases 7 - i
  {
    if i == 7 then 0
    else Or(PartialU64Le(b, i + 1), b[i + 1]) * ByteWeight(i + 1) % 0x1_0000_0000_0000_0000
  }

  ghost predicate IsByteString(b: seq<nat>) {
    |b| == 8 && forall i :: 0 <= i < 8 ==> b[i] < 0x100
  }

  /** A round finds the low byte free and drops what the shift moves out of the word. */
  lemma PartialRound(b: seq<nat>, i: nat, high: nat, low: nat, keep: nat)
    requires IsByteString(b) && i < 8
    requires keep * ByteWeight(i) == 0x1_0000_0000_0000_0000
    requires PartialU64Le(b, i) + b[i] == high * keep + low && low < keep
    ensures PartialU64Le(b, i - 1) == low * ByteWeight(i)
  {
    if i < 7 {
      ShiftFreesLowByte(Or(PartialU64Le(b, i + 1), b[i + 1]), i + 1);
    }
    OrWithFreeByte(PartialU64Le(b, i), b[i]);
    DropHighDigits(high, low, keep, ByteWeight(i));
  }

  lemma PartialU64LeHigh(b: seq<nat>)
    requires IsByteString(b)
    ensures PartialU64Le(b, 3) == 0x1_0000_0000 * b[4]
  {
    PartialRound(b, 7, 0, b[7], 0x100);
    PartialRound(b, 6, 0x100_0000_0000 * b[7], b[6], 0x1_0000);
    PartialRound(b, 5, 0x100_0000 * b[6], b[5], 0x100_0000);
    PartialRound(b, 4, 0x100 * b[5], b[4], 0x1_0000_0000);
  }

  lemma PartialU64LeMiddle(b: seq<nat>)
    requires IsByteString(b)
    ensures PartialU64Le(b, 1) == 0x100_0000_0000 * b[3] + 0x1_0000 * b[2]
  {
    PartialU64LeHigh(b);
    PartialRound(b, 3, 0, 0x1_0000_0000 * b[4] + b[3], 0x100_0000_0000);
    PartialRound(b, 2, 0x100 * b[4], 0x100_0000 * b[3] + b[2], 0x1_0000_0000_0000);
  }

  lemma PartialU64LeLow(b: seq<nat>)
    requires IsByteString(b)
    ensures PartialU64Le(b, -1) == ReadU64Le(b)
  {
    PartialU64LeMiddle(b);
    var sum := 0x100_0000_0000 * b[3] + 0x1_0000 * b[2] + b[1];
    PartialRound(b, 1, 0, sum, 0x100_0000_0000_0000);
    assert sum * 0x100 == 0x1_0000_0000_0000 * b[3] + 0x100_0000 * b[2] + 0x100 * b[1];
    PartialRound(b, 0, 0, sum * 0x100 + b[0], 0x1_0000_0000_0000_0000);
  }

  method U64FromLeBytes(bytes: array<uint8>) returns (value: uint64)
    requires bytes.Length >= 8
    ensures value == ReadU64Le(bytes[..8])
    ensures value == bytes[0] as int + 0x100 * (bytes[1] as int) + 0x100_0000 * (bytes[2] as int)
                     + 0x1_0000_0000_0000 * (bytes[3] as int)
  {
    value := 0;
    var i := 7;
    while i >= 0
      invariant -1 <= i <= 7
      invariant value == PartialU64Le(bytes[..8], i)
    {
      value := AccumulateU64(value, bytes[i], i);
      i := i - 1;
    }
    PartialU64LeLow(bytes[..8]);
  }

  /** The accumulator of `u64_from_be_bytes` once the bytes below position i are read. */
  ghost function PartialU64Be(b: seq<nat>, i: nat): nat
    requires |b| == 8 && i <= 8
    decreases i
  {
    if i == 0 then 0
    else Or(PartialU64Be(b, i - 1), b[i - 1]) * ByteWeight(i - 1) % 0x1_0000_0000_0000_0000
  }

  /** The last two rounds leave byte 7 alone. */
  lemma PartialU64BeLast(b: seq<nat>)
    requires IsByteString(b)
    ensures PartialU64Be(b, 8) == ReadU64Be(b)
  {
    var before := PartialU64Be(b, 7);
    ShiftFreesLowByte(Or(PartialU64Be(b, 6), b[6]), 6);
    OrWithFreeByte(before, b[7]);
    DropHighDigits(before / 0x100, b[7], 0x100, 0x100_0000_0000_0000);
  }

  method U64FromBeBytes(bytes: array<uint8>) returns (value: uint64)
    requires bytes.Length >= 8
    ensures value == ReadU64Be(bytes[..8])
    ensures value == 0x100_0000_0000_0000 * (bytes[7] as int)
  {
    value := 0;
    for i := 0 to 8
      invariant value == PartialU64Be(bytes[..8], i)
    {
      value := AccumulateU64(value, bytes[i], i);
    }
    PartialU64BeLast(bytes[..8]);
  }

  method U16FromLeBytes(bytes: array<uint8>) returns (value: uint16)
    requires bytes.Length >= 2
    ensures value == ReadU16Le(bytes[..2])
    ensures value == bytes[0] as int + 0x100 * (bytes[1] as int)
  {
    value := 0;
    var i := 1;
    while i >= 0
      invariant -1 <= i <= 1
      invariant i == 1 ==> value == 0
      invariant i == 0 ==> value == 0x100 * (bytes[1] as int)
      invariant i == -1 ==> value == ReadU16Le(bytes[..2])
    {
      value := AccumulateU16(value, bytes[i], i);
      i := i - 1;
    }
  }

  /** The accumulator is a `uint16_t`, so bytes 2 and 3 are shifted out of it. */
  method U32FromLeBytes(bytes: array<uint8>) returns (result: uint32)
    requires bytes.Length >= 4
    ensures result == ReadU32Le(bytes[..4])
    ensures result == bytes[0] as int + 0x100 * (bytes[1] as int)
  {
    var value: uint16 := 0;
    var i := 3;
    while i >= 0
      invariant -1 <= i <= 3
      invariant i >= 1 ==> value == 0
      invariant i == 0 ==> value == 0x100 * (bytes[1] as int)
      invariant i == -1 ==> value == ReadU32Le(bytes[..4])
    {
      value := AccumulateU16(value, bytes[i], i);
      i := i - 1;
    }
    return value;
  }

  // Round trips

  lemma {:induction false} LeBytesDenoteValue(value: nat, count: nat)
    requires value < Pow2(8 * count)
    ensures LeValue(LeBytes(value, count)) == value
    decreases count
  {
    if count == 0 {
    } else {
      Pow2Sum(8, 8 * (count - 1));
      assert Pow2(8) == 0x100;
      assert value / 0x100 < Pow2(8 * (count - 1));
      LeBytesDenoteValue(value / 0x100, count - 1);
    }
  }

  lemma {:induction false} LeBytesOfZero(count: nat)
    ensures forall i :: 0 <= i < count ==> LeBytes(0, count)[i] == 0
  {
    if count == 0 {
    } else {
      LeBytesOfZero(count - 1);
    }
  }

  lemma LeValueSplit(bytes: seq<uint8>)
    requires |bytes| >= 2
    ensures LeValue(bytes) == bytes[0] as int + 0x100 * bytes[1] as int + 0x1_0000 * LeValue(bytes[2..])
    ensures LeValue(bytes[2..]) == 0 <==> HighBytesZero(bytes)
  {
  }

  /** `u64_from_le_bytes` reads the denoted number exactly when bytes 2 to 7 are zero. */
  lemma U64LeReadsValue(bytes: seq<uint8>)
    requires |bytes| == 8
    ensures ReadU64Le(bytes) == LeValue(bytes) <==> HighBytesZero(bytes)
  {
    LeValueSplit(bytes);
    LeValueSplit(bytes[2..]);
    assert bytes[2..][2..] == bytes[4..];
    MisplacedBytes(bytes[2], bytes[3], LeValue(bytes[4..]));
  }

  lemma MisplacedBytes(b2: nat, b3: nat, rest: nat)
    requires b2 < 0x100 && b3 < 0x100
    ensures 0x100 * b2 + 0x1_0000_0000 * b3 == b2 + 0x100 * b3 + 0x1_0000 * rest
       <==> b2 + 0x100 * b3 + 0x1_0000 * rest == 0
  {
    if 0x100 * b2 + 0x1_0000_0000 * b3 == b2 + 0x100 * b3 + 0x1_0000 * rest {
      assert b2 == 0x100 * (b2 + 0x100_0000 * b3 - b3 - 0x100 * rest);
      assert b2 == 0;
      assert b3 == 0x100 * (0x1_0000 * b3 - rest);
      assert b3 == 0;
    }
  }

  lemma U64LeReadsShort(bytes: seq<uint8>)
    requires |bytes| == 8
    ensures ReadU64Le(bytes) == LeValue(bytes) <==> LeValue(bytes) < 0x1_0000
  {
    U64LeReadsValue(bytes);
    LeValueSplit(bytes);
  }

  /** Encoding then decoding through the 64-bit little-endian pair. */
  lemma U64LeRoundTrip(value: uint64)
    ensures ReadU64Le(LeBytes(value, 8)) == value <==> value < 0x1_0000
  {
    assert value < Pow2(64) by { Pow2Values(); }
    LeBytesDenoteValue(value, 8);
    U64LeReadsShort(LeBytes(value, 8));
  }

  /** A short number has the two bytes it was read from and zeros above them. */
  lemma ReencodeShort(bytes: seq<uint8>, value: nat)
    requires |bytes| >= 2 && value == bytes[0] as int + 0x100 * bytes[1] as int
    ensures LeBytes(value, |bytes|) == bytes <==> HighBytesZero(bytes)
  {
    var b0: nat, b1: nat := bytes[0], bytes[1];
    assert value % 0x100 == b0 && value / 0x100 == b1 && b1 / 0x100 == 0 && b1 % 0x100 == b1;
    var zeros := LeBytes(0, |bytes| - 2);
    LeBytesOfZero(|bytes| - 2);
    assert LeBytes(value, |bytes|) == [bytes[0], bytes[1]] + zeros;
    assert bytes == [bytes[0], bytes[1]] + bytes[2..];
  }

  /** Decoding then encoding through the 64-bit little-endian pair. */
  lemma U64LeReencode(bytes: seq<uint8>)
    requires |bytes| == 8
    ensures LeBytes(ReadU64Le(bytes), 8) == bytes <==> HighBytesZero(bytes)
  {
    var read := ReadU64Le(bytes);
    if HighBytesZero(bytes) {
      ReencodeShort(bytes, read);
    } else {
      ReadU64LeFits(bytes[0], bytes[1], bytes[2], bytes[3]);
      assert read < Pow2(64) by { Pow2Values(); }
      LeBytesDenoteValue(read, 8);
      U64LeReadsValue(bytes);
    }
  }

  lemma ReadU64LeFits(b0: nat, b1: nat, b2: nat, b3: nat)
    requires b0 < 0x100 && b1 < 0x100 && b2 < 0x100 && b3 < 0x100
    ensures b0 + 0x100 * b1 + 0x100_0000 * b2 + 0x1_0000_0000_0000 * b3 < 0x1_0000_0000_0000_0000
  {
  }

  /** The 64-bit big-endian pair only keeps the most significant byte. */
  lemma U64BeRoundTrip(value: uint64)
    ensures ReadU64Be(LeBytes(value, 8)) == value <==> value % 0x100_0000_0000_0000 == 0
  {
    LeBytesAt(value, 8, 7);
    assert Pow2(56) == 0x100_0000_0000_0000 by { Pow2Values(); }
    TopByte(value);
  }

  lemma TopByte(value: uint64)
    ensures value / 0x100_0000_0000_0000 % 0x100 == value / 0x100_0000_0000_0000
    ensures 0x100_0000_0000_0000 * (value / 0x100_0000_0000_0000) == value <==> value % 0x100_0000_0000_0000 == 0
  {
  }

  lemma {:induction false} LeValueIsInjective(a: seq<uint8>, b: seq<uint8>)
    requires |a| == |b|
    ensures LeValue(a) == LeValue(b) <==> a == b
  {
    if a == [] {
    } else {
      LeValueIsInjective(a[1..], b[1..]);
      assert a == [a[0]] + a[1..] && b == [b[0]] + b[1..];
    }
  }

  lemma {:induction false} ZeroDenotesZero(bytes: seq<uint8>)
    ensures LeValue(bytes) == 0 <==> forall i :: 0 <= i < |bytes| ==> bytes[i] == 0
  {
    if bytes == [] {
    } else {
      ZeroDenotesZero(bytes[1..]);
      assert bytes == [bytes[0]] + bytes[1..];
    }
  }

  lemma {:induction false} LeValueAppend(bytes: seq<uint8>, last: uint8)
    ensures LeValue(bytes + [last]) == LeValue(bytes) + last * Pow2(8 * |bytes|)
  {
    if bytes == [] {
      assert [] + [last] == [last];
    } else {
      var weight := Pow2(8 * |bytes| - 8);
      LeValueAppend(bytes[1..], last);
      assert (bytes + [last])[1..] == bytes[1..] + [last];
      Pow2Sum(8, 8 * |bytes| - 8);
      assert Pow2(8) == 0x100;
      Associate(last, 0x100, weight);
    }
  }

  lemma TopByteAlone(bytes: seq<uint8>)
    requires |bytes| == 8
    ensures LeValue(bytes) == ReadU64Be(bytes) <==> forall i :: 0 <= i < 7 ==> bytes[i] == 0
  {
    assert Pow2(56) == 0x100_0000_0000_0000 by { Pow2Values(); }
    assert bytes == bytes[..7] + [bytes[7]];
    LeValueAppend(bytes[..7], bytes[7]);
    ZeroDenotesZero(bytes[..7]);
  }

  lemma EncodedExactly(value: nat, bytes: seq<uint8>)
    requires value < Pow2(8 * |bytes|)
    ensures LeBytes(value, |bytes|) == bytes <==> LeValue(bytes) == value
  {
    LeBytesDenoteValue(value, |bytes|);
    LeValueIsInjective(LeBytes(value, |bytes|), bytes);
  }

  /** Decoding then encoding through the 64-bit big-endian pair. */
  lemma U64BeReencode(bytes: seq<uint8>)
    requires |bytes| == 8
    ensures LeBytes(ReadU64Be(bytes), 8) == bytes <==> forall i :: 0 <= i < 7 ==> bytes[i] == 0
  {
    assert ReadU64Be(bytes) < Pow2(8 * |bytes|) by { Pow2Values(); }
    EncodedExactly(ReadU64Be(bytes), bytes);
    TopByteAlone(bytes);
  }

  function Reversed(bytes: seq<uint8>): seq<uint8> {
    seq(|bytes|, i requires 0 <= i < |bytes| => bytes[|bytes| - 1 - i])
  }

  /** The number that a big-endian byte string denotes. */
  function BeValue(bytes: seq<uint8>): nat {
    LeValue(Reversed(bytes))
  }

  /** `u64_from_be_bytes` reads the big-endian number only when that number is zero. */
  lemma U64BeReadsValue(bytes: seq<uint8>)
    requires |bytes| == 8
    ensures ReadU64Be(bytes) == BeValue(bytes) <==> forall i :: 0 <= i < 8 ==> bytes[i] == 0
  {
    var reversed := Reversed(bytes);
    ZeroDenotesZero(reversed);
    assert forall i :: 0 <= i < 8 ==> bytes[i] == reversed[7 - i];
    MisplacedTopByte(bytes[7], LeValue(reversed[1..]));
  }

  lemma MisplacedTopByte(byte: nat, rest: nat)
    requires byte < 0x100
    ensures 0x100_0000_0000_0000 * byte == byte + 0x100 * rest <==> byte + 0x100 * rest == 0
  {
    if 0x100_0000_0000_0000 * byte == byte + 0x100 * rest {
      assert byte == 0x100 * (0x1_0000_0000_0000 * byte - rest);
    }
  }

  /** `u64_to_be_bytes` writes the value in big-endian order only when its digits are a palindrome. */
  lemma U64BeWritesValue(value: uint64)
    ensures BeValue(LeBytes(value, 8)) == value
       <==> forall i :: 0 <= i < 8 ==> LeBytes(value, 8)[i] == LeBytes(value, 8)[7 - i]
  {
    var bytes := LeBytes(value, 8);
    assert value < Pow2(64) by { Pow2Values(); }
    LeBytesDenoteValue(value, 8);
    LeValueIsInjective(Reversed(bytes), bytes);
  }

  lemma U32LeKeepsLowHalf(value: uint32)
    ensures ReadU32Le(LeBytes(value, 4)) == value % 0x1_0000
  {
  }

  /** The 32-bit pair keeps the low 16 bits. */
  lemma U32LeRoundTrip(value: uint32, bytes: seq<uint8>)
    requires |bytes| == 4
    ensures ReadU32Le(LeBytes(value, 4)) == value % 0x1_0000
    ensures LeBytes(ReadU32Le(bytes), 4) == bytes <==> HighBytesZero(bytes)
  {
    U32LeKeepsLowHalf(value);
    ReencodeShort(bytes, ReadU32Le(bytes));
  }

  /** The 16-bit pair is inverse in both directions. */
  lemma U16LeRoundTrip(value: uint16, bytes: seq<uint8>)
    requires |bytes| == 2
    ensures ReadU16Le(LeBytes(value, 2)) == value
    ensures LeBytes(ReadU16Le(bytes), 2) == bytes
  {
  }
}
