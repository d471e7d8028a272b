/**
 The UTF-8 and UTF-16 conversions of Char.hpp and the decoder of Utf8Text.hpp they rest on.

 The encoder and the decoder compute with the shifts, masks and ors of the source; what these amount to
 in numbers is part of their contracts, and everything else is proved in numbers.
 */
module CharUtf8 {
  import opened Bitwise
  import opened Common
  import opened PrefixCodes

  type CodePoint = nat

  predicate IsSurrogate(c: CodePoint) {
    0xD800 <= c <= 0xDFFF
  }

  predicate IsHighSurrogate(c: CodePoint) {
    0xD800 <= c <= 0xDBFF
  }

  predicate IsLowSurrogate(c: CodePoint) {
    0xDC00 <= c <= 0xDFFF
  }

  /** Unicode scalar values: what UTF-8 can encode. */
  predicate IsScalar(c: CodePoint) {
    c <= 0x10FFFF && !IsSurrogate(c)
  }

  // ---------------------------------------------------------------------------------------------
  // Bitwise expressions
  // ---------------------------------------------------------------------------------------------

  /** The continuation byte for the lowest six bits. */
  function Tail(c: CodePoint): Byte {
    0x80 + c % 64
  }

  predicate IsContinuation(b: Byte) {
    0x80 <= b < 0xC0
  }

  lemma SixBitsAtATime(c: CodePoint)
    ensures c / 4096 == c / 64 / 64 && c / 262144 == c / 64 / 64 / 64
  {
  }

  lemma TailOnWords(c: CodePoint)
    ensures Or(0x80, And(c, 0x3F)) == Tail(c)
  {
    Masks(c);
    Scales(2);
    SmallShifts(c % 64);
    OrScaled(2, c % 64, 6);
  }

  /** The last byte that the encoder writes for `c`, with the lowest six bits. */
  function TailByte(c: CodePoint): (r: Byte)
    ensures r == Tail(c)
  {
    TailOnWords(c);
    Or(0x80, And(c, 0x3F))
  }

  lemma EncoderShifts(c: CodePoint)
    ensures ShiftRight(c, 6) == c / 64 && ShiftRight(c, 12) == c / 4096 && ShiftRight(c, 18) == c / 262144
  {
    SmallShifts(c);
    SixBitShifts(c);
    SixBitsAtATime(c);
  }

  lemma LeadBounds(c: CodePoint)
    ensures c < 0x800 ==> c / 64 < 0x20
    ensures c < 0x1_0000 ==> c / 4096 < 0x10
    ensures c < 0x20_0000 ==> c / 262144 < 0x08
  {
  }

  /** The lead bytes, with the bits they carry. */
  function TwoByteLead(bits: nat): (r: Byte)
    requires bits < 0x20
    ensures r == 0xC0 + bits
  {
    Scales(6);
    SmallShifts(bits);
    OrScaled(6, bits, 5);
    Or(0xC0, bits)
  }

  function ThreeByteLead(bits: nat): (r: Byte)
    requires bits < 0x10
    ensures r == 0xE0 + bits
  {
    Scales(14);
    SmallShifts(bits);
    OrScaled(14, bits, 4);
    Or(0xE0, bits)
  }

  function FourByteLead(bits: nat): (r: Byte)
    requires bits < 0x08
    ensures r == 0xF0 + bits
  {
    Scales(30);
    SmallShifts(bits);
    OrScaled(30, bits, 3);
    Or(0xF0, bits)
  }

  /** The two highest bits of a byte. */
  lemma HighBits(b: Byte)
    ensures And(b, Scaled(3, 6)) == 64 * (b / 64)
  {
    AndScaled(b, 3, 6);
    SmallShifts(b);
    MaskIsRemainder(b / 64, 2, 4);
    assert Ones(2) == 3;
    Scales(b / 64);
  }

  lemma HighBitsOfContinuation(b: Byte)
    ensures b / 64 == 2 <==> IsContinuation(b)
  {
  }

  lemma ContinuationOnWords(b: Byte)
    ensures And(b, 0xC0) == 0x80 <==> IsContinuation(b)
  {
    HighBits(b);
    Scales(3);
    HighBitsOfContinuation(b);
  }

  lemma LeadRemainders(b: Byte)
    ensures 0xC0 <= b < 0xE0 ==> b % 32 == LeadBits(b)
    ensures 0xE0 <= b < 0xF0 ==> b % 16 == LeadBits(b)
    ensures 0xF0 <= b < 0xF8 ==> b % 8 == LeadBits(b)
  {
  }

  lemma LeadBitsOnWords(b: Byte)
    ensures 0xC0 <= b < 0xE0 ==> And(b, 0x1F) == LeadBits(b)
    ensures 0xE0 <= b < 0xF0 ==> And(b, 0x0F) == LeadBits(b)
    ensures 0xF0 <= b < 0xF8 ==> And(b, 0x07) == LeadBits(b)
  {
    Masks(b);
    LeadRemainders(b);
  }

  lemma LowSixBits(b: Byte)
    requires IsContinuation(b)
    ensures And(b, 0x3F) == b - 0x80 && ShiftRight(b - 0x80, 6) == 0
  {
    MaskIsRemainder(b, 6, 64);
    assert Ones(6) == 0x3F;
    SmallShifts(b - 0x80);
    SixLowest(b);
  }

  lemma SixLowest(b: Byte)
    requires IsContinuation(b)
    ensures b % 64 == b - 0x80 && (b - 0x80) / 64 == 0
  {
  }

  lemma ShiftBySix(scalar: CodePoint)
    requires scalar < 0x400_0000
    ensures ShiftLeft(scalar, 6) == Scaled(scalar, 6) == scalar * 64
  {
    Scales(scalar);
  }

  /** One more continuation byte: the bits read so far, shifted, and its lowest six. */
  lemma ShiftOnWords(scalar: CodePoint, b: Byte)
    requires IsContinuation(b) && scalar < 0x400_0000
    ensures Or(ShiftLeft(scalar, 6), And(b, 0x3F)) == Shift(scalar, b)
  {
    LowSixBits(b);
    ShiftBySix(scalar);
    OrScaled(scalar, b - 0x80, 6);
  }

  /** The bitwise expressions of the encoder and of the decoder, and the arithmetic they amount to. */
  lemma BitwiseIsArithmetic(c: CodePoint, b: Byte)
    ensures ShiftRight(c, 6) == c / 64 && ShiftRight(c, 12) == c / 4096 && ShiftRight(c, 18) == c / 262144
    ensures Or(0x80, And(c, 0x3F)) == 0x80 + c % 64
    ensures And(b, 0xC0) == 0x80 <==> 0x80 <= b < 0xC0
    ensures 0xC0 <= b < 0xE0 ==> And(b, 0x1F) == b - 0xC0
    ensures 0xE0 <= b < 0xF0 ==> And(b, 0x0F) == b - 0xE0
    ensures 0xF0 <= b < 0xF8 ==> And(b, 0x07) == b - 0xF0
    ensures IsContinuation(b) && c < 0x400_0000 ==> Or(ShiftLeft(c, 6), And(b, 0x3F)) == c * 64 + (b - 0x80)
  {
    EncoderShifts(c);
    TailOnWords(c);
    ContinuationOnWords(b);
    LeadBitsOnWords(b);
    if IsContinuation(b) && c < 0x400_0000 {
      ShiftOnWords(c, b);
    }
  }

  // ---------------------------------------------------------------------------------------------
  // Encoding
  // ---------------------------------------------------------------------------------------------

  /** The bytes of a code unit, in numbers; surrogates have some too. */
  function UnitBytes(c: CodePoint): seq<Byte>
    requires c <= 0xFFFF
  {
    if c < 0x80 then [c]
    else if c < 0x800 then [0xC0 + c / 64, Tail(c)]
    else [0xE0 + c / 4096, Tail(c / 64), Tail(c)]
  }

  /** The bytes of a scalar value, in numbers. */
  function Encode(c: CodePoint): seq<Byte> {
    if !IsScalar(c) then []
    else if c <= 0xFFFF then UnitBytes(c)
    else [0xF0 + c / 262144, Tail(c / 4096), Tail(c / 64), Tail(c)]
  }

  /** `ToString`: one to three bytes, surrogates included. */
  function ToString(c: CodePoint): (r: seq<Byte>)
    requires c <= 0xFFFF
    ensures r == UnitBytes(c)
  {
    EncoderShifts(c);
    LeadBounds(c);
    if c < 0x80 then [c]
    else if c < 0x800 then [TwoByteLead(ShiftRight(c, 6)), TailByte(c)]
    else [ThreeByteLead(ShiftRight(c, 12)), TailByte(ShiftRight(c, 6)), TailByte(c)]
  }

  /** The bytes of a supplementary code point. */
  function FourBytes(c: CodePoint): (r: seq<Byte>)
    requires 0x1_0000 <= c <= 0x10_FFFF
    ensures r == Encode(c)
  {
    EncoderShifts(c);
    LeadBounds(c);
    [FourByteLead(ShiftRight(c, 18)), TailByte(ShiftRight(c, 12)), TailByte(ShiftRight(c, 6)), TailByte(c)]
  }

  /** `ConvertFromUtf32` on a signed 32-bit argument; None stands for its exception. */
  function ConvertFromUtf32(utf32: int): (r: Option<seq<Byte>>)
    requires -0x8000_0000 <= utf32 < 0x8000_0000
    ensures r == if 0 <= utf32 && IsScalar(utf32) then Some(Encode(utf32)) else None
  {
    if utf32 < 0 || utf32 > 0x10FFFF || 0xD800 <= utf32 <= 0xDFFF then None
    else if utf32 <= 0xFFFF then Some(ToString(utf32))
    else Some(FourBytes(utf32))
  }

  // ---------------------------------------------------------------------------------------------
  // Decoding
  // ---------------------------------------------------------------------------------------------

  datatype Decoded = Decoded(scalar: CodePoint, length: nat, valid: bool)

  const INVALID := Decoded(0, 1, false)

  /** Length of the sequence that a lead byte announces; 0 if it cannot lead one. */
  function AnnouncedLength(b0: Byte): nat {
    if b0 < 0x80 then 1
    else if b0 < 0xC2 then 0
    else if b0 < 0xE0 then 2
    else if b0 < 0xF0 then 3
    else if b0 < 0xF5 then 4
    else 0
  }

  function LeadBits(b0: Byte): CodePoint
    requires 0xC0 <= b0 < 0xF8
  {
    if b0 < 0xE0 then b0 - 0xC0 else if b0 < 0xF0 then b0 - 0xE0 else b0 - 0xF0
  }

  function Minimum(length: nat): CodePoint {
    if length == 2 then 0x80 else if length == 3 then 0x800 else 0x10000
  }

  /** One more continuation byte. */
  function Shift(scalar: CodePoint, b: Byte): CodePoint
    requires IsContinuation(b)
  {
    scalar * 64 + (b - 0x80)
  }

  function ShiftAll(scalar: CodePoint, bytes: seq<Byte>): CodePoint
    requires forall b :: b in bytes ==> IsContinuation(b)
  {
    if bytes == [] then scalar else Shift(ShiftAll(scalar, bytes[..|bytes| - 1]), bytes[|bytes| - 1])
  }

  /** What the decoder makes of the start of a byte string. */
  function Decode(data: seq<Byte>): Decoded {
    if data == [] then Decoded(0, 0, false)
    else if data[0] < 0x80 then Decoded(data[0], 1, true)
    else
      var length := AnnouncedLength(data[0]);
      if length == 0 || |data| < length || exists b :: b in data[1..length] && !IsContinuation(b) then INVALID
      else
        var scalar := ShiftAll(LeadBits(data[0]), data[1..length]);
        if scalar < Minimum(length) || !IsScalar(scalar) then INVALID else Decoded(scalar, length, true)
  }

  /** No scalar of `i` bytes has more bits than these. */
  function BitsRead(i: nat): nat {
    if i == 1 then 0x20 else if i == 2 then 0x800 else if i == 3 then 0x2_0000 else 0x80_0000
  }

  /** `scalar` holds the lead bits and the bits of the continuation bytes in front of position `i`. */
  predicate IsRead(data: seq<Byte>, lead: CodePoint, i: nat, scalar: CodePoint) {
    && 1 <= i <= |data|
    && (forall b :: b in data[1..i] ==> IsContinuation(b))
    && scalar == ShiftAll(lead, data[1..i]) < BitsRead(i)
  }

  lemma ReadNext(data: seq<Byte>, lead: CodePoint, i: nat, scalar: CodePoint)
    requires 1 <= i <= 3 && i < |data| && IsRead(data, lead, i, scalar) && IsContinuation(data[i])
    ensures IsRead(data, lead, i + 1, Or(ShiftLeft(scalar, 6), And(data[i], 0x3F)))
  {
    assert data[1..i + 1] == data[1..i] + [data[i]];
    OneMore(lead, data[1..i], data[i]);
    ShiftOnWords(scalar, data[i]);
  }

  lemma BrokenSequence(data: seq<Byte>, i: nat, length: nat)
    requires 1 <= i < length <= |data| && !IsContinuation(data[i])
    requires data[0] >= 0x80 && AnnouncedLength(data[0]) == length
    ensures Decode(data) == INVALID
  {
    assert data[1..length][i - 1] == data[i];
  }

  /** `DecodeUtf8`. */
  method DecodeUtf8(data: seq<Byte>) returns (r: Decoded)
    ensures r == Decode(data)
  {
    if data == [] {
      return Decoded(0, 0, false);
    }
    var b0 := data[0];
    if b0 < 0x80 {
      return Decoded(b0, 1, true);
    }
    if b0 < 0xC2 {
      return INVALID;
    }
    var length: nat, scalar: CodePoint, minimum: CodePoint;
    LeadBitsOnWords(b0);
    if b0 < 0xE0 {
      length, scalar, minimum := 2, And(b0, 0x1F), 0x80;
    } else if b0 < 0xF0 {
      length, scalar, minimum := 3, And(b0, 0x0F), 0x800;
    } else if b0 < 0xF5 {
      length, scalar, minimum := 4, And(b0, 0x07), 0x10000;
    } else {
      return INVALID;
    }
    if |data| < length {
      return INVALID;
    }
    for i := 1 to length
      invariant IsRead(data, LeadBits(b0), i, scalar)
    {
      ContinuationOnWords(data[i]);
      if And(data[i], 0xC0) != 0x80 {
        BrokenSequence(data, i, length);
        return INVALID;
      }
      ReadNext(data, LeadBits(b0), i, scalar);
      scalar := Or(ShiftLeft(scalar, 6), And(data[i], 0x3F));
    }
    if scalar < minimum || 0xD800 <= scalar <= 0xDFFF || scalar > 0x10FFFF {
      return INVALID;
    }
    return Decoded(scalar, length, true);
  }

  lemma OneMore(scalar: CodePoint, bytes: seq<Byte>, b: Byte)
    requires IsContinuation(b) && forall x :: x in bytes ==> IsContinuation(x)
    ensures ShiftAll(scalar, bytes + [b]) == Shift(ShiftAll(scalar, bytes), b)
  {
    assert (bytes + [b])[..|bytes|] == bytes;
  }

  /** What the decoder computes from the bytes of one sequence. */
  lemma ShiftedSequence(scalar: CodePoint, b1: Byte, b2: Byte, b3: Byte)
    requires IsContinuation(b1) && IsContinuation(b2) && IsContinuation(b3)
    ensures ShiftAll(scalar, [b1]) == Shift(scalar, b1)
    ensures ShiftAll(scalar, [b1, b2]) == Shift(Shift(scalar, b1), b2)
    ensures ShiftAll(scalar, [b1, b2, b3]) == Shift(Shift(Shift(scalar, b1), b2), b3)
  {
    assert [b1][..0] == [] && [b1, b2][..1] == [b1] && [b1, b2, b3][..2] == [b1, b2];
  }

  lemma Shifted(scalar: CodePoint, b: Byte)
    requires IsContinuation(b)
    ensures Shift(scalar, b) / 64 == scalar && Tail(Shift(scalar, b)) == b
  {
  }

  lemma Unshifted(c: CodePoint)
    ensures IsContinuation(Tail(c)) && Shift(c / 64, Tail(c)) == c
  {
  }

  /** Decoding one sequence whose bytes are given. */
  lemma DecodeBytes(data: seq<Byte>, length: nat, scalar: CodePoint)
    requires data != [] && 2 <= length <= 4 && AnnouncedLength(data[0]) == length <= |data|
    requires forall i :: 1 <= i < length ==> IsContinuation(data[i])
    requires var one := Shift(LeadBits(data[0]), data[1]);
             scalar == if length == 2 then one
                       else if length == 3 then Shift(one, data[2])
                       else Shift(Shift(one, data[2]), data[3])
    ensures Decode(data) == if scalar < Minimum(length) || !IsScalar(scalar) then INVALID else Decoded(scalar, length, true)
  {
    var b0 := data[0];
    if length == 2 {
      assert data[1..length] == [data[1]];
      ShiftedSequence(LeadBits(b0), data[1], 0x80, 0x80);
    } else if length == 3 {
      assert data[1..length] == [data[1], data[2]];
      ShiftedSequence(LeadBits(b0), data[1], data[2], 0x80);
    } else {
      assert data[1..length] == [data[1], data[2], data[3]];
      ShiftedSequence(LeadBits(b0), data[1], data[2], data[3]);
    }
  }

  /** The decoder recovers an encoded scalar value, whatever follows it. */
  lemma DecodeEncoded(c: CodePoint, rest: seq<Byte>)
    requires IsScalar(c)
    ensures Decode(Encode(c) + rest) == Decoded(c, |Encode(c)|, true)
  {
    var e := Encode(c);
    if 0x80 <= c {
      EncodedBytes(c);
      SixBitsAtATime(c);
      Unshifted(c);
      Unshifted(c / 64);
      Unshifted(c / 64 / 64);
      DecodeBytes(e + rest, |e|, c);
    }
  }

  /** The bytes of an encoding, by its length. */
  lemma EncodedBytes(c: CodePoint)
    requires IsScalar(c) && 0x80 <= c
    ensures var e := Encode(c);
            && 2 <= |e| <= 4 && AnnouncedLength(e[0]) == |e| && c >= Minimum(|e|) && e[|e| - 1] == Tail(c)
            && (|e| == 2 ==> LeadBits(e[0]) == c / 64)
            && (|e| == 3 ==> LeadBits(e[0]) == c / 64 / 64 && e[1] == Tail(c / 64))
            && (|e| == 4 ==> LeadBits(e[0]) == c / 64 / 64 / 64 && e[1] == Tail(c / 64 / 64) && e[2] == Tail(c / 64))
  {
    SixBitsAtATime(c);
  }

  lemma EncodeTwo(b0: Byte, b1: Byte)
    requires 0xC2 <= b0 < 0xE0 && IsContinuation(b1)
    ensures var c := Shift(LeadBits(b0), b1); Encode(c) == [b0, b1]
  {
    Shifted(LeadBits(b0), b1);
  }

  lemma EncodeThree(b0: Byte, b1: Byte, b2: Byte)
    requires 0xE0 <= b0 < 0xF0 && IsContinuation(b1) && IsContinuation(b2)
    ensures var c := Shift(Shift(LeadBits(b0), b1), b2); c >= 0x800 && IsScalar(c) ==> Encode(c) == [b0, b1, b2]
  {
    var one := Shift(LeadBits(b0), b1);
    Shifted(LeadBits(b0), b1);
    Shifted(one, b2);
    SixBitsAtATime(Shift(one, b2));
  }

  lemma EncodeFour(b0: Byte, b1: Byte, b2: Byte, b3: Byte)
    requires 0xF0 <= b0 < 0xF5 && IsContinuation(b1) && IsContinuation(b2) && IsContinuation(b3)
    ensures var c := Shift(Shift(Shift(LeadBits(b0), b1), b2), b3);
            c >= 0x10000 && IsScalar(c) ==> Encode(c) == [b0, b1, b2, b3]
  {
    var one := Shift(LeadBits(b0), b1);
    var two := Shift(one, b2);
    Shifted(LeadBits(b0), b1);
    Shifted(one, b2);
    Shifted(two, b3);
    SixBitsAtATime(Shift(two, b3));
  }

  /** Whatever the decoder accepts is the encoding of the scalar value it reports: no overlong
      form, no surrogate, nothing beyond U+10FFFF. */
  lemma EncodeDecoded(data: seq<Byte>)
    requires Decode(data).valid
    ensures var d := Decode(data);
            IsScalar(d.scalar) && 0 < d.length <= |data| && data[..d.length] == Encode(d.scalar)
  {
    var length := AnnouncedLength(data[0]);
    if length == 2 {
      DecodeBytes(data, 2, Shift(LeadBits(data[0]), data[1]));
      EncodeTwo(data[0], data[1]);
    } else if length == 3 {
      DecodeBytes(data, 3, Shift(Shift(LeadBits(data[0]), data[1]), data[2]));
      EncodeThree(data[0], data[1], data[2]);
    } else if length == 4 {
      DecodeBytes(data, 4, Shift(Shift(Shift(LeadBits(data[0]), data[1]), data[2]), data[3]));
      EncodeFour(data[0], data[1], data[2], data[3]);
    }
  }

  // ---------------------------------------------------------------------------------------------
  // Whole texts
  // ---------------------------------------------------------------------------------------------

  ghost predicate AreScalars(cs: seq<CodePoint>) {
    AllSymbols(IsScalar, cs)
  }

  /** The concatenated `ConvertFromUtf32` results of a text. */
  function Utf8(cs: seq<CodePoint>): seq<Byte> {
    EncodeAll(Encode, cs)
  }

  function DecodeStep(data: seq<Byte>): Option<Step<CodePoint>> {
    var d := Decode(data);
    if d.valid then Some(Step(d.scalar, d.length)) else None
  }

  function FromUtf8(data: seq<Byte>): Option<seq<CodePoint>> {
    DecodeAll(DecodeStep, data)
  }

  lemma Utf8Recovers()
    ensures Recovers(IsScalar, Encode, DecodeStep)
  {
    forall c: CodePoint | IsScalar(c)
      ensures IsRecovered(c, Encode(c), DecodeStep)
    {
      forall rest: seq<Byte>
        ensures DecodeStep(Encode(c) + rest) == Some(Step(c, |Encode(c)|))
      {
        DecodeEncoded(c, rest);
      }
    }
  }

  lemma Utf8AcceptsOnlyEncodings()
    ensures AcceptsOnlyEncodings(IsScalar, Encode, DecodeStep)
  {
    forall data | DecodeStep(data).Some?
      ensures var step := DecodeStep(data).value;
              IsScalar(step.symbol) && 0 < step.length <= |data| && data[..step.length] == Encode(step.symbol)
    {
      EncodeDecoded(data);
    }
  }

  /** Every text of scalar values decodes back to itself, and every byte string that decodes is the
      encoding of the text it decodes to. */
  lemma Utf8RoundTrip(cs: seq<CodePoint>, data: seq<Byte>)
    ensures AreScalars(cs) && Utf8(cs) == data <==> FromUtf8(data) == Some(cs)
  {
    if AreScalars(cs) && Utf8(cs) == data {
      Utf8Recovers();
      DecodesBack(IsScalar, Encode, DecodeStep, cs);
    }
    if FromUtf8(data) == Some(cs) {
      Utf8AcceptsOnlyEncodings();
      EncodesBack(IsScalar, Encode, DecodeStep, data, cs);
    }
  }

  /** A byte string is the encoding of at most one text. */
  lemma Utf8IsInjective(xs: seq<CodePoint>, ys: seq<CodePoint>)
    requires AreScalars(xs) && AreScalars(ys)
    ensures Utf8(xs) == Utf8(ys) <==> xs == ys
  {
    Utf8RoundTrip(xs, Utf8(xs));
    Utf8RoundTrip(ys, Utf8(ys));
  }

  // ---------------------------------------------------------------------------------------------
  // Order
  // ---------------------------------------------------------------------------------------------

  predicate ByteBefore(a: Byte, b: Byte) {
    a < b
  }

  predicate PointBefore(a: CodePoint, b: CodePoint) {
    a < b
  }

  /** The lowest six bits decide between numbers that agree in front of them. */
  lemma SixBitsDecide(x: CodePoint, y: CodePoint)
    requires x < y
    ensures x / 64 < y / 64 || (x / 64 == y / 64 && Tail(x) < Tail(y))
  {
  }

  lemma LengthsOrdered(x: CodePoint, y: CodePoint)
    requires IsScalar(x) && IsScalar(y) && x < y
    ensures |Encode(x)| <= |Encode(y)|
    ensures |Encode(x)| < |Encode(y)| ==> Encode(x)[0] < Encode(y)[0]
  {
  }

  /** Byte strings of one length that differ behind their first byte, and before the end. */
  predicate IsLessLater(a: seq<Byte>, b: seq<Byte>) {
    && 2 <= |a| == |b| <= 4 && a[0] == b[0]
    && (|| a[1] < b[1]
        || (a[1] == b[1] && |a| > 2 && (a[2] < b[2] || (a[2] == b[2] && |a| > 3 && a[3] < b[3]))))
  }

  lemma TwoBytesDecide(x: CodePoint, y: CodePoint)
    requires IsScalar(x) && IsScalar(y) && x < y && |Encode(x)| == |Encode(y)| == 2
    ensures Encode(x)[0] < Encode(y)[0] || IsLessLater(Encode(x), Encode(y))
  {
    EncodedBytes(x);
    EncodedBytes(y);
    LeadsOrdered(Encode(x)[0], Encode(y)[0]);
    SixBitsDecide(x, y);
  }

  lemma ThreeBytesDecide(x: CodePoint, y: CodePoint)
    requires IsScalar(x) && IsScalar(y) && x < y && |Encode(x)| == |Encode(y)| == 3
    ensures Encode(x)[0] < Encode(y)[0] || IsLessLater(Encode(x), Encode(y))
  {
    EncodedBytes(x);
    EncodedBytes(y);
    LeadsOrdered(Encode(x)[0], Encode(y)[0]);
    SixBitsDecide(x, y);
    if x / 64 < y / 64 {
      SixBitsDecide(x / 64, y / 64);
    }
  }

  lemma FourBytesDecide(x: CodePoint, y: CodePoint)
    requires IsScalar(x) && IsScalar(y) && x < y && |Encode(x)| == |Encode(y)| == 4
    ensures Encode(x)[0] < Encode(y)[0] || IsLessLater(Encode(x), Encode(y))
  {
    EncodedBytes(x);
    EncodedBytes(y);
    LeadsOrdered(Encode(x)[0], Encode(y)[0]);
    SixBitsDecide(x, y);
    if x / 64 < y / 64 {
      SixBitsDecide(x / 64, y / 64);
      if x / 64 / 64 < y / 64 / 64 {
        SixBitsDecide(x / 64 / 64, y / 64 / 64);
      }
    }
  }

  /** Two different scalar values already differ, in their order, before either encoding ends. */
  lemma EncodeDiverges(x: CodePoint, y: CodePoint)
    requires IsScalar(x) && IsScalar(y) && x < y
    ensures Diverges(ByteBefore, Encode(x), Encode(y))
  {
    LengthsOrdered(x, y);
    if |Encode(x)| == |Encode(y)| {
      match |Encode(x)|
      case 2 => TwoBytesDecide(x, y);
      case 3 => ThreeBytesDecide(x, y);
      case 4 => FourBytesDecide(x, y);
      case _ =>
    }
    if IsLessLater(Encode(x), Encode(y)) {
      DivergesLater(Encode(x), Encode(y));
    } else {
      DivergesAtOnce(Encode(x), Encode(y));
    }
  }

  lemma DivergesAtOnce(a: seq<Byte>, b: seq<Byte>)
    requires a != [] && b != [] && a[0] < b[0]
    ensures Diverges(ByteBefore, a, b)
  {
  }

  /** Lead bytes of one length are ordered as the bits they carry. */
  lemma LeadsOrdered(a0: Byte, b0: Byte)
    requires AnnouncedLength(a0) == AnnouncedLength(b0) >= 2
    ensures LeadBits(a0) < LeadBits(b0) <==> a0 < b0
  {
  }

  lemma DivergesLater(a: seq<Byte>, b: seq<Byte>)
    requires IsLessLater(a, b)
    ensures Diverges(ByteBefore, a, b)
  {
    if a[1] == b[1] {
      assert a[1..][1..] == a[2..] && b[1..][1..] == b[2..];
      if a[2] == b[2] {
        assert a[2..][1..] == a[3..] && b[2..][1..] == b[3..];
      }
    }
  }

  lemma EncodingsDiverge()
    ensures forall x, y :: IsScalar(x) && IsScalar(y) && PointBefore(x, y) ==> Diverges(ByteBefore, Encode(x), Encode(y))
  {
    forall x, y | IsScalar(x) && IsScalar(y) && PointBefore(x, y)
      ensures Diverges(ByteBefore, Encode(x), Encode(y))
    {
      EncodeDiverges(x, y);
    }
  }

  /** The byte order of encoded texts is the scalar order of the texts. */
  lemma Utf8KeepsOrder(xs: seq<CodePoint>, ys: seq<CodePoint>)
    requires AreScalars(xs) && AreScalars(ys)
    ensures Less(ByteBefore, Utf8(xs), Utf8(ys)) <==> Less(PointBefore, xs, ys)
  {
    EncodingsDiverge();
    KeepsOrder(IsScalar, Encode, PointBefore, ByteBefore, xs, ys);
  }

  // ---------------------------------------------------------------------------------------------
  // Single characters
  // ---------------------------------------------------------------------------------------------

  datatype ParseOutcome = Character(c: CodePoint) | Empty | InvalidSequence | NotOneCharacter | OutsideBmp

  /** `Parse`; every outcome but the first is a FormatException. */
  function Parse(s: seq<Byte>): ParseOutcome {
    if s == [] then Empty
    else
      var d := Decode(s);
      if !d.valid then InvalidSequence
      else if d.length != |s| then NotOneCharacter
      else if d.scalar > 0xFFFF then OutsideBmp
      else Character(d.scalar)
  }

  lemma ParsedIsToString(s: seq<Byte>, c: CodePoint)
    requires Parse(s) == Character(c)
    ensures c <= 0xFFFF && !IsSurrogate(c) && s == ToString(c)
  {
    EncodeDecoded(s);
    assert s[..|s|] == s;
  }

  lemma ToStringIsParsed(c: CodePoint)
    requires c <= 0xFFFF && !IsSurrogate(c)
    ensures Parse(ToString(c)) == Character(c)
  {
    DecodeEncoded(c, []);
    assert Encode(c) + [] == ToString(c);
  }

  /** `ToString` does write three bytes for a surrogate; `Parse` takes them for malformed. */
  lemma SurrogateIsNotParsed(c: CodePoint)
    requires IsSurrogate(c)
    ensures |ToString(c)| == 3 && Parse(ToString(c)) == InvalidSequence
  {
    var s := ToString(c);
    SixBitsAtATime(c);
    Unshifted(c);
    Unshifted(c / 64);
    DecodeBytes(s, 3, c);
  }

  /** `Parse` inverts `ToString` on exactly the code units that are not surrogates, and accepts
      nothing else. */
  lemma ParseInvertsToString(s: seq<Byte>, c: CodePoint)
    ensures Parse(s) == Character(c) <==> c <= 0xFFFF && !IsSurrogate(c) && s == ToString(c)
  {
    if Parse(s) == Character(c) {
      ParsedIsToString(s, c);
    }
    if c <= 0xFFFF && !IsSurrogate(c) {
      ToStringIsParsed(c);
    }
  }

  /** `ConvertToUtf32(high, low)`. */
  function ConvertToUtf32(high: CodePoint, low: CodePoint): Option<CodePoint> {
    if !IsHighSurrogate(high) || !IsLowSurrogate(low) then None
    else Some((high - 0xD800) * 1024 + (low - 0xDC00) + 0x10000)
  }

  /** The UTF-16 pair of a supplementary code point. */
  function HighOf(c: CodePoint): int {
    0xD800 + (c - 0x10000) / 1024
  }

  function LowOf(c: CodePoint): int {
    0xDC00 + (c - 0x10000) % 1024
  }

  /** Surrogate pairs and supplementary code points correspond one to one. */
  lemma SurrogatePairsAreSupplementary(high: CodePoint, low: CodePoint, c: CodePoint)
    ensures ConvertToUtf32(high, low) == Some(c) <==> 0x10000 <= c <= 0x10FFFF && high == HighOf(c) && low == LowOf(c)
  {
  }
}
